/** Static AMD dependency extraction from a JavaScript syntax tree
    (parseJavaScriptDeps.ts): the string literals of `define` and `require`
    calls, with a flag for anything that could not be read statically. */
module JsDeps {
  import opened Wrappers
  import opened Estree
  import JsParser

  /** `{ deps, incompleteAnalysis }` */
  datatype ParserResult = ParserResult(deps: seq<string>, incompleteAnalysis: bool)

  const NO_DEPS := ParserResult([], false)

  /** The TypeError raised by reading `type` of an elided array element. */
  const NULL_ELEMENT_ERROR := "Cannot read properties of null (reading 'type')"

  /** The values of the string-literal elements, in order. */
  function StringValues(elements: seq<Node>): seq<string>
  {
    if |elements| == 0 then []
    else
      var last := elements[|elements| - 1];
      StringValues(elements[..|elements| - 1]) + (if last.StringLiteral? then [last.value] else [])
  }

  predicate AllStringLiterals(elements: seq<Node>)
  {
    forall i :: 0 <= i < |elements| ==> elements[i].StringLiteral?
  }

  /** What an array literal of dependencies yields: its string literals, and
      the flag when any element is something else. An elided element throws. */
  function ArrayDeps(elements: seq<Node>): Result<ParserResult>
  {
    if Hole in elements then Err(NULL_ELEMENT_ERROR)
    else Ok(ParserResult(StringValues(elements), !AllStringLiterals(elements)))
  }

  /** The extracted deps are exactly the string-literal elements, and there
      is one per element when nothing sets the flag. */
  lemma {:induction false} StringValuesExactly(elements: seq<Node>)
    ensures forall d :: d in StringValues(elements) <==>
              exists i :: 0 <= i < |elements| && elements[i] == StringLiteral(d)
    ensures |StringValues(elements)| <= |elements|
    ensures AllStringLiterals(elements) ==> |StringValues(elements)| == |elements|
  {
    if |elements| > 0 {
      var init := elements[..|elements| - 1];
      StringValuesExactly(init);
      forall d
        ensures d in StringValues(elements) <==>
                exists i :: 0 <= i < |elements| && elements[i] == StringLiteral(d)
      {
        if exists i :: 0 <= i < |elements| && elements[i] == StringLiteral(d) {
          var i :| 0 <= i < |elements| && elements[i] == StringLiteral(d);
          if i < |init| {
            assert init[i] == StringLiteral(d);
          }
        }
        if d in StringValues(init) {
          var i :| 0 <= i < |init| && init[i] == StringLiteral(d);
          assert elements[i] == StringLiteral(d);
        }
      }
      if AllStringLiterals(elements) {
        assert AllStringLiterals(init) by {
          forall i | 0 <= i < |init| ensures init[i].StringLiteral? {
            assert init[i] == elements[i];
          }
        }
      }
    }
  }

  /** extractDepsFromArrayExpression */
  method ExtractDepsFromArrayExpression(node: Node) returns (r: Result<ParserResult>)
    requires node.ArrayExpression?
    ensures r == ArrayDeps(node.elements)
  {
    var elements := node.elements;
    var deps: seq<string> := [];
    var incompleteAnalysis := false;
    var i := 0;
    while i < |elements|
      invariant 0 <= i <= |elements|
      invariant Hole !in elements[..i]
      invariant deps == StringValues(elements[..i])
      invariant incompleteAnalysis == !AllStringLiterals(elements[..i])
    {
      var e := elements[i];
      if e.Hole? {
        return Err(NULL_ELEMENT_ERROR);
      }
      assert elements[..i + 1][..i] == elements[..i];
      if e.StringLiteral? {
        deps := deps + [e.value];
      } else {
        incompleteAnalysis := true;
      }
      i := i + 1;
    }
    assert elements[..i] == elements;
    r := Ok(ParserResult(deps, incompleteAnalysis));
  }

  /** Results in sequence: the first error wins, otherwise deps concatenate
      and flags are or-ed. */
  function Combine(a: Result<ParserResult>, b: Result<ParserResult>): Result<ParserResult>
  {
    if a.Err? then a
    else if b.Err? then b
    else Ok(ParserResult(a.value.deps + b.value.deps, a.value.incompleteAnalysis || b.value.incompleteAnalysis))
  }

  lemma CombineAssociative(a: Result<ParserResult>, b: Result<ParserResult>, c: Result<ParserResult>)
    ensures Combine(Combine(a, b), c) == Combine(a, Combine(b, c))
  {
    if a.Ok? && b.Ok? && c.Ok? {
      assert a.value.deps + b.value.deps + c.value.deps == a.value.deps + (b.value.deps + c.value.deps);
    }
  }

  /** A step that contributes nothing leaves the result as it was. */
  lemma CombineNoDeps(a: Result<ParserResult>)
    ensures Combine(a, Ok(NO_DEPS)) == a
  {
    if a.Ok? {
      assert a.value.deps + [] == a.value.deps;
    }
  }

  /** The arguments of a call (none for any other node). */
  function Args(call: Node): seq<Node>
  {
    if call.CallExpression? then call.arguments else []
  }

  /** The deps of the array literal at argument position `k`, if there is one. */
  function ArrayArgDeps(args: seq<Node>, k: nat): Result<ParserResult>
  {
    if k < |args| && args[k].ArrayExpression? then ArrayDeps(args[k].elements) else Ok(NO_DEPS)
  }

  /** One `define` call: an array in first position (anonymous module), then
      an array in second position (named module). */
  function DefineCallDeps(call: Node): Result<ParserResult>
  {
    Combine(ArrayArgDeps(Args(call), 0), ArrayArgDeps(Args(call), 1))
  }

  /** One `require` call: nothing without arguments; the array rule for an
      array; the string of a string literal; the flag for another literal;
      and any other first argument is passed over without the flag. */
  function RequireCallDeps(call: Node): Result<ParserResult>
  {
    var args := Args(call);
    if |args| == 0 then Ok(NO_DEPS)
    else
      match args[0]
      case ArrayExpression(elements) => ArrayDeps(elements)
      case StringLiteral(value) => Ok(ParserResult([value], false))
      case OtherLiteral => Ok(ParserResult([], true))
      case _ => Ok(NO_DEPS)
  }

  /** The per-call results of `calls`, combined in order. */
  function Gather(calls: seq<Node>, f: Node -> Result<ParserResult>): Result<ParserResult>
  {
    if |calls| == 0 then Ok(NO_DEPS)
    else Combine(Gather(calls[..|calls| - 1], f), f(calls[|calls| - 1]))
  }

  lemma {:induction false} GatherAppend(a: seq<Node>, b: seq<Node>, f: Node -> Result<ParserResult>)
    ensures Gather(a + b, f) == Combine(Gather(a, f), Gather(b, f))
    decreases |b|
  {
    if |b| == 0 {
      assert a + b == a;
      var g := Gather(a, f);
      if g.Ok? {
        assert g.value.deps + [] == g.value.deps;
      }
    } else {
      var b' := b[..|b| - 1];
      assert (a + b)[..|a + b| - 1] == a + b';
      GatherAppend(a, b', f);
      CombineAssociative(Gather(a, f), Gather(b', f), f(b[|b| - 1]));
    }
  }

  /** One more call extends the combined result by that call's result. */
  lemma GatherStep(calls: seq<Node>, i: nat, f: Node -> Result<ParserResult>)
    requires i < |calls|
    ensures Gather(calls[..i + 1], f) == Combine(Gather(calls[..i], f), f(calls[i]))
  {
    assert calls[..i + 1][..i] == calls[..i];
  }

  /** An error stops the walk: nothing after it changes the result. */
  lemma {:induction false} GatherErrorIsFinal(calls: seq<Node>, k: nat, f: Node -> Result<ParserResult>)
    requires k <= |calls| && Gather(calls[..k], f).Err?
    ensures Gather(calls, f) == Gather(calls[..k], f)
    decreases |calls| - k
  {
    if k < |calls| {
      GatherStep(calls, k, f);
      GatherErrorIsFinal(calls, k + 1, f);
    } else {
      assert calls[..k] == calls;
    }
  }

  function DefineDeps(ast: Program): Result<ParserResult>
  {
    Gather(Query(ast, "define"), DefineCallDeps)
  }

  function RequireDeps(ast: Program): Result<ParserResult>
  {
    Gather(Query(ast, "require"), RequireCallDeps)
  }

  /** What parseJavaScriptDeps answers: the loose parser for text that came
      from a PHP template, otherwise the strict one; then all `define` deps
      followed by all `require` deps, with no de-duplication. */
  function JavaScriptDeps(parsers: JsParser.Parsers, input: string, fromPHP: bool): Result<ParserResult>
  {
    match JsParser.Parse(parsers, input, fromPHP)
    case Err(e) => Err(e)
    case Ok(ast) => Combine(DefineDeps(ast), RequireDeps(ast))
  }

  /** getAMDDefineDeps */
  method GetAMDDefineDeps(ast: Program) returns (r: Result<ParserResult>)
    ensures r == DefineDeps(ast)
  {
    var defineCalls := Query(ast, "define");
    var deps: seq<string> := [];
    var incompleteAnalysis := false;
    var i := 0;
    while i < |defineCalls|
      invariant 0 <= i <= |defineCalls|
      invariant Gather(defineCalls[..i], DefineCallDeps) == Ok(ParserResult(deps, incompleteAnalysis))
    {
      var call := defineCalls[i];
      GatherStep(defineCalls, i, DefineCallDeps);
      ghost var before := Ok(ParserResult(deps, incompleteAnalysis));
      CombineNoDeps(before);
      var args := call.arguments;
      if 0 < |args| && args[0].ArrayExpression? {
        var results := ExtractDepsFromArrayExpression(args[0]);
        if results.Err? {
          GatherErrorIsFinal(defineCalls, i + 1, DefineCallDeps);
          return results;
        }
        deps := deps + results.value.deps;
        if results.value.incompleteAnalysis {
          incompleteAnalysis := true;
        }
      }
      assert Combine(before, ArrayArgDeps(args, 0)) == Ok(ParserResult(deps, incompleteAnalysis));
      ghost var middle := Ok(ParserResult(deps, incompleteAnalysis));
      CombineNoDeps(middle);
      if 1 < |args| && args[1].ArrayExpression? {
        var results := ExtractDepsFromArrayExpression(args[1]);
        if results.Err? {
          CombineAssociative(before, ArrayArgDeps(args, 0), ArrayArgDeps(args, 1));
          GatherErrorIsFinal(defineCalls, i + 1, DefineCallDeps);
          return results;
        }
        deps := deps + results.value.deps;
        if results.value.incompleteAnalysis {
          incompleteAnalysis := true;
        }
      }
      assert Combine(middle, ArrayArgDeps(args, 1)) == Ok(ParserResult(deps, incompleteAnalysis));
      CombineAssociative(before, ArrayArgDeps(args, 0), ArrayArgDeps(args, 1));
      i := i + 1;
    }
    assert defineCalls[..i] == defineCalls;
    r := Ok(ParserResult(deps, incompleteAnalysis));
  }

  /** getAMDRequireDeps */
  method GetAMDRequireDeps(ast: Program) returns (r: Result<ParserResult>)
    ensures r == RequireDeps(ast)
  {
    var requireCalls := Query(ast, "require");
    var deps: seq<string> := [];
    var incompleteAnalysis := false;
    var i := 0;
    while i < |requireCalls|
      invariant 0 <= i <= |requireCalls|
      invariant Gather(requireCalls[..i], RequireCallDeps) == Ok(ParserResult(deps, incompleteAnalysis))
    {
      var call := requireCalls[i];
      GatherStep(requireCalls, i, RequireCallDeps);
      CombineNoDeps(Ok(ParserResult(deps, incompleteAnalysis)));
      i := i + 1;
      if |call.arguments| == 0 {
        continue;
      }
      var firstArg := call.arguments[0];
      if firstArg.ArrayExpression? {
        var results := ExtractDepsFromArrayExpression(firstArg);
        if results.Err? {
          GatherErrorIsFinal(requireCalls, i, RequireCallDeps);
          return results;
        }
        deps := deps + results.value.deps;
        if results.value.incompleteAnalysis {
          incompleteAnalysis := true;
        }
      }
      if firstArg.StringLiteral? {
        deps := deps + [firstArg.value];
      } else if firstArg.OtherLiteral? {
        incompleteAnalysis := true;
      }
    }
    assert requireCalls[..i] == requireCalls;
    r := Ok(ParserResult(deps, incompleteAnalysis));
  }

  /** parseJavaScriptDeps */
  method ParseJavaScriptDeps(parsers: JsParser.Parsers, input: string, fromPHP: bool)
    returns (r: Result<ParserResult>)
    ensures r == JavaScriptDeps(parsers, input, fromPHP)
  {
    var parsed := JsParser.Parse(parsers, input, fromPHP);
    if parsed.Err? {
      return Err(parsed.error);
    }
    var defineData := GetAMDDefineDeps(parsed.value);
    if defineData.Err? {
      return defineData;
    }
    var requireData := GetAMDRequireDeps(parsed.value);
    if requireData.Err? {
      return requireData;
    }
    r := Ok(ParserResult(defineData.value.deps + requireData.value.deps,
                         defineData.value.incompleteAnalysis || requireData.value.incompleteAnalysis));
  }

  /** Statements contribute in program order: the deps of a program are the
      deps of its first statements followed by those of the rest. */
  lemma DepsOfStatementsConcatenate(a: seq<Node>, b: seq<Node>)
    ensures DefineDeps(Program(a + b)) == Combine(DefineDeps(Program(a)), DefineDeps(Program(b)))
    ensures RequireDeps(Program(a + b)) == Combine(RequireDeps(Program(a)), RequireDeps(Program(b)))
  {
    CallsInAppend(a, b, "define");
    GatherAppend(CallsIn(a, "define"), CallsIn(b, "define"), DefineCallDeps);
    CallsInAppend(a, b, "require");
    GatherAppend(CallsIn(a, "require"), CallsIn(b, "require"), RequireCallDeps);
  }

  /** A `define` without an array literal among its first two arguments
      contributes nothing and does not set the flag. */
  lemma DefineWithoutArrayContributesNothing(call: Node)
    requires forall k :: 0 <= k < 2 && k < |Args(call)| ==> !Args(call)[k].ArrayExpression?
    ensures DefineCallDeps(call) == Ok(NO_DEPS)
  {
    assert 0 < |Args(call)| ==> !Args(call)[0].ArrayExpression?;
    assert 1 < |Args(call)| ==> !Args(call)[1].ArrayExpression?;
    assert NO_DEPS.deps + NO_DEPS.deps == [];
  }

  /** `define('foo', ['jquery', 'mage/apply/main'], function ($, mage) {})` */
  lemma NamedDefineExample()
    ensures var call := CallExpression(Identifier("define"),
              [StringLiteral("foo"),
               ArrayExpression([StringLiteral("jquery"), StringLiteral("mage/apply/main")]),
               OtherNode([])]);
            DefineDeps(Program([ExpressionStatement(call)]))
            == Ok(ParserResult(["jquery", "mage/apply/main"], false))
  {
    var elements := [StringLiteral("jquery"), StringLiteral("mage/apply/main")];
    var args := [StringLiteral("foo"), ArrayExpression(elements), OtherNode([])];
    var call := CallExpression(Identifier("define"), args);
    TopLevelCallFoundFirst("define", args, []);
    assert [ExpressionStatement(call)] + [] == [ExpressionStatement(call)];
    assert CallsIn(elements, "define") == [] by {
      assert elements[1..][1..] == [];
    }
    assert CallsIn(args, "define") == [] by {
      assert args[1..][1..][1..] == [];
      assert CallsIn(args[1..][1..], "define") == [];
      assert CallsIn(args[1..], "define") == [];
    }
    assert CallsIn([], "define") == [];
    assert Query(Program([ExpressionStatement(call)]), "define") == [call];
    assert elements[..1] == [StringLiteral("jquery")];
    assert StringValues(elements) == ["jquery", "mage/apply/main"];
    assert Hole !in elements;
    assert AllStringLiterals(elements);
    assert ArrayArgDeps(args, 0) == Ok(NO_DEPS);
    assert ArrayArgDeps(args, 1) == Ok(ParserResult(["jquery", "mage/apply/main"], false));
    assert [] + ["jquery", "mage/apply/main"] == ["jquery", "mage/apply/main"];
    assert DefineCallDeps(call) == Ok(ParserResult(["jquery", "mage/apply/main"], false));
    assert [call][..0] == [];
    assert Gather([call], DefineCallDeps) == Combine(Ok(NO_DEPS), DefineCallDeps(call));
  }

  /** `require([foo, "bar"], function (val, bar) {})`: the identifier sets
      the flag, the string is still collected. */
  lemma PartlyAnalysableRequireExample()
    ensures var call := CallExpression(Identifier("require"),
              [ArrayExpression([Identifier("foo"), StringLiteral("bar")]), OtherNode([])]);
            RequireCallDeps(call) == Ok(ParserResult(["bar"], true))
  {
    var elements := [Identifier("foo"), StringLiteral("bar")];
    assert elements[..1] == [Identifier("foo")];
    assert StringValues(elements) == ["bar"];
    assert !elements[0].StringLiteral?;
  }
}
