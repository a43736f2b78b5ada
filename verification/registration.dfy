/** parseThemeIDFromRegistration.ts: finds the theme a registration.php file
    registers, by a depth-first walk over the PHP syntax tree. */
module Registration {
  import opened Wrappers
  import opened Strings
  import opened Themes

  /** The nodes of a php-parser syntax tree that the walk tells apart. A
      `Container` is any node with a `children` list (a program, a namespace,
      a block); `Other` is any other node, of the given kind. */
  datatype PhpNode =
    | ExpressionStatement(expression: PhpNode)
    | Container(kind: string, children: seq<PhpNode>)
    | Call(what: PhpNode, arguments: seq<PhpNode>)
    | StaticLookup(what: PhpNode, offset: PhpNode)
    | ClassReference(name: string)
    | Identifier(name: string)
    | StringLiteral(value: string)
    | Other(kind: string)

  /** `node.kind` */
  function Kind(n: PhpNode): string
  {
    match n
    case ExpressionStatement(_) => "expressionstatement"
    case Container(kind, _) => kind
    case Call(_, _) => "call"
    case StaticLookup(_, _) => "staticlookup"
    case ClassReference(_) => "classreference"
    case Identifier(_) => "identifier"
    case StringLiteral(_) => "string"
    case Other(kind) => kind
  }

  /** `node.name`, for the nodes that have one. */
  function NameOf(n: PhpNode): Option<string>
  {
    match n
    case ClassReference(name) => Some(name)
    case Identifier(name) => Some(name)
    case _ => None
  }

  datatype Area = Frontend | Adminhtml

  /** The area as it is spelled in registration.php. */
  function AreaName(a: Area): string
  {
    match a
    case Frontend => FRONTEND
    case Adminhtml => ADMINHTML
  }

  /** The result of parseThemeName. */
  datatype ThemeName = ThemeName(themeID: string, area: Area)

  function UnrecognizedArea(value: string, first: string): string
  {
    "Unrecognized area for theme " + value + ". Saw \"" + first
      + "\", but expected \"frontend\" or \"adminhtml\""
  }

  /** `parseThemeName(value)`: "area/vendor/name", further segments ignored. */
  function ParseThemeName(value: string): (r: Result<ThemeName>)
    ensures r.Err? <==> Split(value, '/')[0] != FRONTEND && Split(value, '/')[0] != ADMINHTML
    ensures r.Ok? ==> AreaName(r.value.area) == Split(value, '/')[0]
  {
    var parts := Split(value, '/');
    var first := parts[0];
    if first != FRONTEND && first != ADMINHTML then Err(UnrecognizedArea(value, first))
    else
      Ok(ThemeName(SegmentOr(parts, 1) + "/" + SegmentOr(parts, 2),
                   if first == FRONTEND then Frontend else Adminhtml))
  }

  /** A registered name "area/vendor/name", possibly followed by more
      segments, gives the ID "vendor/name" in that area. */
  lemma ParseThemeNameSegments(area: Area, vendor: string, name: string, tail: seq<string>)
    requires '/' !in vendor && '/' !in name
    ensures var value := AreaName(area) + "/" + vendor + "/" + name + Join([""] + tail, "/");
      ParseThemeName(value) == Ok(ThemeName(vendor + "/" + name, area))
  {
    var rest := Join([""] + tail, "/");
    var value := AreaName(area) + "/" + vendor + "/" + name + rest;
    var nameRest := name + rest;
    assert value == AreaName(area) + "/" + (vendor + "/" + nameRest);
    SplitAtFirst(AreaName(area), '/', vendor + "/" + nameRest);
    SplitAtFirst(vendor, '/', nameRest);
    NameRestSplit(name, tail);
  }

  /** The pieces of `name + ("/" + tail joined)`: the name first. */
  lemma NameRestSplit(name: string, tail: seq<string>)
    requires '/' !in name
    ensures Split(name + Join([""] + tail, "/"), '/')[0] == name
  {
    if |tail| == 0 {
      assert name + Join([""], "/") == name;
      SplitWithoutSeparator(name, '/');
    } else {
      assert Join([""] + tail, "/") == "" + "/" + Join(tail, "/") by {
        assert ([""] + tail)[1..] == tail;
      }
      assert name + Join([""] + tail, "/") == name + ['/'] + Join(tail, "/");
      SplitAtFirst(name, '/', Join(tail, "/"));
    }
  }

  /** Too few segments print as `undefined`: "frontend/Magento" gives the ID
      "Magento/undefined". */
  lemma ParseThemeNameTwoSegments(vendor: string)
    requires '/' !in vendor
    ensures ParseThemeName("frontend/" + vendor) == Ok(ThemeName(vendor + "/" + UNDEFINED, Frontend))
  {
    assert "frontend/" + vendor == "frontend" + ['/'] + vendor;
    SplitAtFirst("frontend", '/', vendor);
    SplitWithoutSeparator(vendor, '/');
  }

  /** A static lookup on a class whose name ends with ComponentRegistrar. */
  predicate NodeIsRegistrar(n: PhpNode)
  {
    n.StaticLookup? && n.what.ClassReference? && EndsWith(n.what.name, "ComponentRegistrar")
  }

  /** Reading a property of a missing argument throws a TypeError. */
  function MissingArgument(property: string): string
  {
    "Cannot read properties of undefined (reading '" + property + "')"
  }

  /** `isThemeRegisterCall(node)`: `…ComponentRegistrar::register(
      …ComponentRegistrar::THEME, …)`. A call without arguments throws. */
  function IsThemeRegisterCall(call: PhpNode): (r: Result<bool>)
    requires call.Call?
    ensures r.Err? <==> |call.arguments| == 0
    ensures r == Ok(true) <==>
              && NodeIsRegistrar(call.what) && NameOf(call.what.offset) == Some("register")
              && |call.arguments| >= 1
              && NodeIsRegistrar(call.arguments[0]) && NameOf(call.arguments[0].offset) == Some("THEME")
  {
    var isCallToComponentRegistrar :=
      NodeIsRegistrar(call.what) && NameOf(call.what.offset) == Some("register");
    if |call.arguments| == 0 then Err(MissingArgument("kind"))
    else
      var firstArg := call.arguments[0];
      var isFirstArgThemeConst := NodeIsRegistrar(firstArg) && NameOf(firstArg.offset) == Some("THEME");
      Ok(isCallToComponentRegistrar && isFirstArgThemeConst)
  }

  function NotAStringHead(kind: string): string
  {
    "Expected the second argument in \"registration.php\" to be a string, but it was instead a value of type \""
      + kind + "\"\nSource file: "
  }

  function NotAString(kind: string, registrationFilepath: string): string
  {
    NotAStringHead(kind) + registrationFilepath
  }

  /** What a theme-register call returns: the parsed second argument. */
  function RegisteredTheme(call: PhpNode, registrationFilepath: string): Result<ThemeName>
    requires call.Call?
  {
    if |call.arguments| < 2 then Err(MissingArgument("kind"))
    else
      var secondArg := call.arguments[1];
      if !secondArg.StringLiteral? then Err(NotAString(Kind(secondArg), registrationFilepath))
      else ParseThemeName(secondArg.value)
  }

  /** A theme found, or the error met while reading it. */
  function Found(r: Result<ThemeName>): Result<Option<ThemeName>>
  {
    match r
    case Err(e) => Err(e)
    case Ok(theme) => Ok(Some(theme))
  }

  /** Number of nodes the walk can reach from `n`. */
  function Size(n: PhpNode): nat
  {
    match n
    case ExpressionStatement(e) => 1 + Size(e)
    case Container(_, cs) => 1 + SizeAll(cs)
    case _ => 1
  }

  function SizeAll(ns: seq<PhpNode>): nat
  {
    if |ns| == 0 then 0 else SizeAll(ns[..|ns| - 1]) + Size(ns[|ns| - 1])
  }

  lemma {:induction false} SizeAllAppend(ns: seq<PhpNode>, ms: seq<PhpNode>)
    ensures SizeAll(ns + ms) == SizeAll(ns) + SizeAll(ms)
    decreases |ms|
  {
    if |ms| == 0 {
      assert ns + ms == ns;
    } else {
      assert (ns + ms)[..|ns + ms| - 1] == ns + ms[..|ms| - 1];
      SizeAllAppend(ns, ms[..|ms| - 1]);
    }
  }

  /** The `while (toVisit.length)` loop as a function of the stack: pop the
      last node, push an expression statement's expression and a node's
      children, and stop at the first theme-register call. */
  function Walk(toVisit: seq<PhpNode>, registrationFilepath: string): Result<Option<ThemeName>>
    decreases SizeAll(toVisit)
  {
    if |toVisit| == 0 then Ok(None)
    else
      var node := toVisit[|toVisit| - 1];
      var rest := toVisit[..|toVisit| - 1];
      assert SizeAll(toVisit) == SizeAll(rest) + Size(node);
      match node
      case ExpressionStatement(e) =>
        SizeAllAppend(rest, [e]);
        assert SizeAll([e]) == Size(e) by { assert [e][..0] == []; }
        Walk(rest + [e], registrationFilepath)
      case Container(_, cs) =>
        SizeAllAppend(rest, cs);
        Walk(rest + cs, registrationFilepath)
      case Call(_, _) =>
        (match IsThemeRegisterCall(node)
         case Err(e) => Err(e)
         case Ok(isRegister) =>
           if isRegister then Found(RegisteredTheme(node, registrationFilepath))
           else Walk(rest, registrationFilepath))
      case _ => Walk(rest, registrationFilepath)
  }

  /** `parseThemeIDFromRegistration(code, registrationFilepath)`, given the
      syntax tree of `code`. */
  method ParseThemeIDFromRegistration(ast: PhpNode, registrationFilepath: string)
    returns (r: Result<Option<ThemeName>>)
    ensures r == Walk([ast], registrationFilepath)
  {
    var toVisit := [ast];
    while |toVisit| > 0
      invariant Walk(toVisit, registrationFilepath) == Walk([ast], registrationFilepath)
      decreases SizeAll(toVisit)
    {
      var node := toVisit[|toVisit| - 1];
      ghost var before := toVisit;
      var rest := toVisit[..|toVisit| - 1];
      toVisit := rest;
      assert SizeAll(before) == SizeAll(rest) + Size(node);
      if node.ExpressionStatement? {
        toVisit := toVisit + [node.expression];
        SizeAllAppend(rest, [node.expression]);
        assert SizeAll([node.expression]) == Size(node.expression) by { assert [node.expression][..0] == []; }
      }
      if node.Container? && |node.children| > 0 {
        toVisit := toVisit + node.children;
        SizeAllAppend(rest, node.children);
      }
      if node.Container? && |node.children| == 0 {
        assert rest + node.children == rest;
      }
      if node.Call? {
        var isRegister := IsThemeRegisterCall(node);
        if isRegister.Err? {
          return Err(isRegister.error);
        }
        if !isRegister.value {
          continue;
        }
        if |node.arguments| < 2 {
          return Err(MissingArgument("kind"));
        }
        var secondArg := node.arguments[1];
        if !secondArg.StringLiteral? {
          return Err(NotAString(Kind(secondArg), registrationFilepath));
        }
        var theme := ParseThemeName(secondArg.value);
        if theme.Err? {
          return Err(theme.error);
        }
        return Ok(Some(theme.value));
      }
    }
    r := Ok(None);
  }

  /** No call anywhere in the nodes the walk reaches. */
  predicate CallFree(n: PhpNode)
  {
    match n
    case ExpressionStatement(e) => CallFree(e)
    case Container(_, cs) => forall i :: 0 <= i < |cs| ==> CallFree(cs[i])
    case Call(_, _) => false
    case _ => true
  }

  /** A tree without calls registers nothing. */
  lemma {:induction false} CallFreeRegistersNothing(toVisit: seq<PhpNode>, registrationFilepath: string)
    requires forall i :: 0 <= i < |toVisit| ==> CallFree(toVisit[i])
    ensures Walk(toVisit, registrationFilepath) == Ok(None)
    decreases SizeAll(toVisit)
  {
    if |toVisit| > 0 {
      var node := toVisit[|toVisit| - 1];
      var rest := toVisit[..|toVisit| - 1];
      assert SizeAll(toVisit) == SizeAll(rest) + Size(node);
      match node
      case ExpressionStatement(e) =>
        SizeAllAppend(rest, [e]);
        assert SizeAll([e]) == Size(e) by { assert [e][..0] == []; }
        CallFreeRegistersNothing(rest + [e], registrationFilepath);
      case Container(_, cs) =>
        SizeAllAppend(rest, cs);
        CallFreeRegistersNothing(rest + cs, registrationFilepath);
      case Call(_, _) =>
        assert false;
      case _ =>
        CallFreeRegistersNothing(rest, registrationFilepath);
    }
  }

  /** `<cls>::register(<cls>::THEME, <name>, <dir>)` */
  function RegisterCall(cls: string, name: PhpNode, dir: PhpNode): PhpNode
  {
    Call(StaticLookup(ClassReference(cls), Identifier("register")),
         [StaticLookup(ClassReference(cls), Identifier("THEME")), name, dir])
  }

  /** Popping an expression statement pushes its expression. */
  lemma StatementStep(rest: seq<PhpNode>, e: PhpNode, registrationFilepath: string)
    ensures Walk(rest + [ExpressionStatement(e)], registrationFilepath) == Walk(rest + [e], registrationFilepath)
  {
    assert (rest + [ExpressionStatement(e)])[..|rest|] == rest;
  }

  /** Popping a theme-register call ends the walk with what it registers. */
  lemma RegisterCallStep(rest: seq<PhpNode>, cls: string, name: PhpNode, dir: PhpNode,
                         registrationFilepath: string)
    requires EndsWith(cls, "ComponentRegistrar")
    ensures Walk(rest + [RegisterCall(cls, name, dir)], registrationFilepath)
         == Found(RegisteredTheme(RegisterCall(cls, name, dir), registrationFilepath))
  {
    var call := RegisterCall(cls, name, dir);
    assert IsThemeRegisterCall(call) == Ok(true);
    assert (rest + [call])[..|rest|] == rest;
  }

  /** A file made of a `use` statement and the register call: the walk pops
      the call statement first and returns the parsed name. */
  lemma RegistrationFile(cls: string, name: string, dir: PhpNode, useStatement: PhpNode,
                         registrationFilepath: string)
    requires EndsWith(cls, "ComponentRegistrar")
    ensures var call := RegisterCall(cls, StringLiteral(name), dir);
      var program := Container("program", [useStatement, ExpressionStatement(call)]);
      Walk([program], registrationFilepath) == Found(ParseThemeName(name))
  {
    var call := RegisterCall(cls, StringLiteral(name), dir);
    var program := Container("program", [useStatement, ExpressionStatement(call)]);
    assert [program][..0] == [];
    assert [] + [useStatement, ExpressionStatement(call)] == [useStatement] + [ExpressionStatement(call)];
    StatementStep([useStatement], call, registrationFilepath);
    RegisterCallStep([useStatement], cls, StringLiteral(name), dir, registrationFilepath);
  }

  /** Two register calls in one file: the stack is last in, first out, so
      the later one decides. */
  lemma LaterRegistrationWins(cls: string, first: string, second: string, dir: PhpNode,
                              registrationFilepath: string)
    requires EndsWith(cls, "ComponentRegistrar")
    ensures var program := Container("program",
                              [ExpressionStatement(RegisterCall(cls, StringLiteral(first), dir)),
                               ExpressionStatement(RegisterCall(cls, StringLiteral(second), dir))]);
      Walk([program], registrationFilepath) == Found(ParseThemeName(second))
  {
    var c1 := ExpressionStatement(RegisterCall(cls, StringLiteral(first), dir));
    var call := RegisterCall(cls, StringLiteral(second), dir);
    var program := Container("program", [c1, ExpressionStatement(call)]);
    assert [program][..0] == [];
    assert [] + [c1, ExpressionStatement(call)] == [c1] + [ExpressionStatement(call)];
    StatementStep([c1], call, registrationFilepath);
    RegisterCallStep([c1], cls, StringLiteral(second), dir, registrationFilepath);
  }

  /** A register call whose second argument is not a string literal is an
      error that names the kind found and the registration file. */
  lemma NonStringNameFails(cls: string, name: PhpNode, dir: PhpNode, registrationFilepath: string)
    requires EndsWith(cls, "ComponentRegistrar")
    requires !name.StringLiteral?
    ensures Walk([ExpressionStatement(RegisterCall(cls, name, dir))], registrationFilepath)
         == Err(NotAString(Kind(name), registrationFilepath))
  {
    var call := RegisterCall(cls, name, dir);
    assert [] + [ExpressionStatement(call)] == [ExpressionStatement(call)];
    StatementStep([], call, registrationFilepath);
    assert [] + [call] == [call];
    RegisterCallStep([], cls, name, dir, registrationFilepath);
    NonStringRegistered(cls, name, dir, registrationFilepath);
  }

  /** The walk result of such a call: the error for a non-string name. */
  lemma NonStringRegistered(cls: string, name: PhpNode, dir: PhpNode, registrationFilepath: string)
    requires !name.StringLiteral?
    ensures RegisteredTheme(RegisterCall(cls, name, dir), registrationFilepath)
         == Err(NotAString(Kind(name), registrationFilepath))
  {
  }

  /** The message names the registration file at its end. */
  lemma NotAStringNamesFile(kind: string, registrationFilepath: string)
    ensures EndsWith(NotAString(kind, registrationFilepath), registrationFilepath)
  {
    EndsWithAppend(NotAStringHead(kind), registrationFilepath);
  }
}
