/** Parser selection and the object-expression parser with its
    wrap-and-retry policy (jsParser.ts). */
module JsParser {
  import opened Wrappers
  import opened Strings
  import opened Estree

  /** The strict parser (acorn) and the error-tolerant one (acorn-loose), as
      functions of the source text; `Err` carries what the parser throws. */
  datatype Parsers = Parsers(strict: string -> Result<Program>, loose: string -> Result<Program>)

  /** `parse(input, { loose })`: the loose parser exactly when asked for. */
  function Parse(parsers: Parsers, input: string, loose: bool): (r: Result<Program>)
    ensures loose ==> r == parsers.loose(input)
    ensures !loose ==> r == parsers.strict(input)
  {
    if loose then parsers.loose(input) else parsers.strict(input)
  }

  /** `/^\s*\{/.test(input)` */
  predicate HasOpeningBrace(input: string)
  {
    var t := TrimStart(input);
    |t| > 0 && t[0] == '{'
  }

  /** The text handed to the parser: an input that opens with a brace is put
      in parentheses, since `{` in statement position starts a block. The
      result never opens with a brace, so cleaning twice wraps only once. */
  function Cleaned(input: string): (text: string)
    ensures HasOpeningBrace(input) ==> text == "(" + input + ")"
    ensures !HasOpeningBrace(input) ==> text == input
    ensures !HasOpeningBrace(text)
  {
    if HasOpeningBrace(input) then
      var text := "(" + input + ")";
      assert !IsJsWhitespace(text[0]);
      text
    else input
  }

  lemma CleanedIdempotent(input: string)
    ensures Cleaned(Cleaned(input)) == Cleaned(input)
  {
  }

  const UNABLE_TO_PARSE := "Unable to parse object expression"

  /** The message of the TypeError raised by reading `type` of the missing
      first statement of an empty program. */
  const NO_FIRST_STATEMENT := "Cannot read properties of undefined (reading 'type')"

  /** One parse attempt: the object expression of the first statement, if the
      first statement is an expression statement holding one. */
  function Attempt(parsers: Parsers, text: string, loose: bool): (r: Result<Node>)
    ensures r.Ok? ==> r.value.ObjectExpression?
    ensures r.Ok? ==> Parse(parsers, text, loose).Ok?
                      && |Parse(parsers, text, loose).value.body| > 0
                      && Parse(parsers, text, loose).value.body[0] == ExpressionStatement(r.value)
    ensures (Parse(parsers, text, loose).Ok?
             && |Parse(parsers, text, loose).value.body| > 0
             && Parse(parsers, text, loose).value.body[0].ExpressionStatement?
             && Parse(parsers, text, loose).value.body[0].expression.ObjectExpression?) ==> r.Ok?
  {
    match Parse(parsers, text, loose)
    case Err(e) => Err(e)
    case Ok(ast) =>
      if |ast.body| == 0 then Err(NO_FIRST_STATEMENT)
      else
        var first := ast.body[0];
        if first.ExpressionStatement? && first.expression.ObjectExpression? then Ok(first.expression)
        else Err(UNABLE_TO_PARSE)
  }

  /** `parseObjectExpression(input, loose)`. A strict failure is retried once
      in loose mode on the cleaned text; a loose failure is the answer. So
      there are at most two attempts, both on `Cleaned(input)`: the retry
      does not wrap again. */
  function ParseObjectExpression(parsers: Parsers, input: string, loose: bool): (r: Result<Node>)
    ensures r.Ok? ==> r.value.ObjectExpression?
    ensures loose ==> r == Attempt(parsers, Cleaned(input), true)
    ensures !loose ==> r == (var strict := Attempt(parsers, Cleaned(input), false);
                             if strict.Ok? then strict else Attempt(parsers, Cleaned(input), true))
    decreases if loose then 0 else 1
  {
    var text := Cleaned(input);
    var attempt := Attempt(parsers, text, loose);
    if attempt.Ok? then attempt
    else if !loose then
      CleanedIdempotent(input);
      ParseObjectExpression(parsers, text, true)
    else attempt
  }

  /** A strict parse that yields an object expression is never retried, and
      a loose attempt is all a loose call makes: the loose parser's error is
      the caller's error. */
  lemma LooseFailureIsFinal(parsers: Parsers, input: string)
    requires parsers.loose(Cleaned(input)).Err?
    ensures ParseObjectExpression(parsers, input, true) == Err(parsers.loose(Cleaned(input)).error)
    ensures Attempt(parsers, Cleaned(input), false).Err? ==>
              ParseObjectExpression(parsers, input, false) == Err(parsers.loose(Cleaned(input)).error)
  {
  }

  /** `{ a: 1 }` is handed to either parser as `({ a: 1 })`. */
  lemma BracedInputIsWrapped(input: string)
    requires |input| > 0 && input[0] == '{'
    ensures Cleaned(input) == "(" + input + ")"
  {
    assert !IsJsWhitespace(input[0]);
  }
}
