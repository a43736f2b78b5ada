/** The slice of the ESTree syntax tree that dependency extraction looks at,
    and the one esquery selector it uses, `CallExpression[callee.name=X]`.
    The parsers that build these trees (acorn, acorn-loose) are not part of
    this model; they appear as functions from text to `Result<Program>`. */
module Estree {

  /** An ESTree node. Node kinds the extraction rules never distinguish are
      `OtherNode`, which keeps their children so that a query still finds
      the calls nested inside them. */
  datatype Node =
    | Identifier(name: string)
    | StringLiteral(value: string)
      /** a `Literal` whose value is a number, boolean, null, RegExp or bigint */
    | OtherLiteral
    | ArrayExpression(elements: seq<Node>)
      /** an elided array element (`[a, , b]`), which ESTree stores as `null` */
    | Hole
    | ObjectExpression(properties: seq<Node>)
    | Property(key: Node, propValue: Node)
    | SpreadElement(argument: Node)
    | CallExpression(callee: Node, arguments: seq<Node>)
    | ExpressionStatement(expression: Node)
    | OtherNode(children: seq<Node>)

  datatype Program = Program(body: seq<Node>)

  /** The node matches `CallExpression[callee.name=name]`. */
  predicate IsCallTo(n: Node, name: string)
  {
    n.CallExpression? && n.callee.Identifier? && n.callee.name == name
  }

  /** esquery's answer for `CallExpression[callee.name=name]` on one node:
      the matching calls in the node and below it, in pre-order (a node
      before its children, children left to right, a call's callee before
      its arguments). */
  function CallsInNode(n: Node, name: string): (calls: seq<Node>)
    ensures forall i :: 0 <= i < |calls| ==> IsCallTo(calls[i], name)
    decreases n
  {
    match n
    case Identifier(_) => []
    case StringLiteral(_) => []
    case OtherLiteral => []
    case Hole => []
    case ArrayExpression(elements) => CallsIn(elements, name)
    case ObjectExpression(properties) => CallsIn(properties, name)
    case Property(key, value) => CallsInNode(key, name) + CallsInNode(value, name)
    case SpreadElement(argument) => CallsInNode(argument, name)
    case CallExpression(callee, arguments) =>
      (if IsCallTo(n, name) then [n] else []) + CallsInNode(callee, name) + CallsIn(arguments, name)
    case ExpressionStatement(expression) => CallsInNode(expression, name)
    case OtherNode(children) => CallsIn(children, name)
  }

  /** The matching calls of a sequence of sibling nodes, left to right. */
  function CallsIn(ns: seq<Node>, name: string): (calls: seq<Node>)
    ensures forall i :: 0 <= i < |calls| ==> IsCallTo(calls[i], name)
    decreases ns
  {
    if |ns| == 0 then [] else CallsInNode(ns[0], name) + CallsIn(ns[1..], name)
  }

  /** `esquery.query(ast, 'CallExpression[callee.name=<name>]')` */
  function Query(ast: Program, name: string): (calls: seq<Node>)
    ensures forall i :: 0 <= i < |calls| ==> IsCallTo(calls[i], name)
  {
    CallsIn(ast.body, name)
  }

  /** The query distributes over the statements of a program. */
  lemma {:induction false} CallsInAppend(a: seq<Node>, b: seq<Node>, name: string)
    ensures CallsIn(a + b, name) == CallsIn(a, name) + CallsIn(b, name)
    decreases |a|
  {
    if |a| > 0 {
      assert (a + b)[1..] == a[1..] + b;
      CallsInAppend(a[1..], b, name);
    } else {
      assert a + b == b;
    }
  }

  /** A top-level statement `name(args);` is found, before anything nested in
      its arguments. */
  lemma TopLevelCallFoundFirst(name: string, args: seq<Node>, rest: seq<Node>)
    ensures var call := CallExpression(Identifier(name), args);
            Query(Program([ExpressionStatement(call)] + rest), name)
            == [call] + CallsIn(args, name) + CallsIn(rest, name)
  {
    var call := CallExpression(Identifier(name), args);
    var body := [ExpressionStatement(call)] + rest;
    assert body[0] == ExpressionStatement(call);
    assert body[1..] == rest;
    assert IsCallTo(call, name);
    assert CallsInNode(call, name) == [call] + CallsIn(args, name);
    assert CallsIn(body, name) == CallsInNode(body[0], name) + CallsIn(rest, name);
  }
}
