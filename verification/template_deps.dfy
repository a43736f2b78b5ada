/** Dependencies declared in Magento templates (parseTemplateDeps.ts):
    `data-mage-init` attributes, the `mageInit` Knockout binding,
    `text/x-magento-init` scripts and `define`/`require` calls in plain
    scripts. The HTML tokenizer (htmlparser2) is not part of this model: it
    is a function from the cleaned text to the events it reports. */
module TemplateDeps {
  import opened Wrappers
  import opened Strings
  import opened Estree
  import JsParser
  import JsDeps

  // ---------------------------------------------------------------------
  // PHP delimiters
  // ---------------------------------------------------------------------

  const PHP_DELIM_PLACEHOLDER := "PHP_DELIM_PLACEHOLDER"

  /** Length of a `<?=` or `<?php` opener at the start of `s`, 0 if none. */
  function OpenerLength(s: string): (n: nat)
    ensures n == 0 || n == 3 || n == 5
    ensures n > 0 ==> n <= |s| && s[..2] == "<?"
  {
    if "<?=" <= s then 3 else if "<?php" <= s then 5 else 0
  }

  /** The first `?>` of `s` starting at `from` or later. */
  function FindClose(s: string, from: nat): (p: Option<nat>)
    ensures p.Some? ==> from <= p.value && OccursAt(s, "?>", p.value)
    ensures p.Some? ==> forall q: nat :: from <= q < p.value ==> !OccursAt(s, "?>", q)
    ensures p.None? ==> forall q: nat :: from <= q ==> !OccursAt(s, "?>", q)
    decreases |s| - from
  {
    if from + 2 > |s| then None
    else if s[from..from + 2] == "?>" then Some(from)
    else FindClose(s, from + 1)
  }

  /** The length of the match of `<\?(?:=|php)[\s\S]+?\?>` at the start of
      `s`: the opener, at least one character, and everything up to and
      including the first `?>` after that. */
  function SpanAt(s: string): (n: Option<nat>)
    ensures n.Some? ==> 0 < n.value <= |s|
  {
    var o := OpenerLength(s);
    if o == 0 then None
    else
      match FindClose(s, o + 1)
      case None => None
      case Some(p) => Some(p + 2)
  }

  /** replacePHPDelimiters: every `<?= … ?>` and `<?php … ?>` span, found
      left to right without overlap, becomes PHP_DELIM_PLACEHOLDER. */
  function ReplacePHPDelimiters(input: string): string
    decreases |input|
  {
    if |input| == 0 then ""
    else
      match SpanAt(input)
      case Some(n) => PHP_DELIM_PLACEHOLDER + ReplacePHPDelimiters(input[n..])
      case None => [input[0]] + ReplacePHPDelimiters(input[1..])
  }

  /** Text before the first '<' is copied unchanged. */
  lemma {:induction false} PlainPrefixKept(pre: string, rest: string)
    requires '<' !in pre
    ensures ReplacePHPDelimiters(pre + rest) == pre + ReplacePHPDelimiters(rest)
    decreases |pre|
  {
    if |pre| > 0 {
      var s := pre + rest;
      assert s[0] == pre[0] && s[0] != '<';
      assert SpanAt(s).None?;
      assert s[1..] == pre[1..] + rest;
      PlainPrefixKept(pre[1..], rest);
      assert [pre[0]] + pre[1..] == pre;
    } else {
      assert pre + rest == rest;
    }
  }

  /** Text without a `<?` anywhere comes back unchanged. */
  lemma {:induction false} NoOpenerUnchanged(input: string)
    requires !Contains(input, "<?")
    ensures ReplacePHPDelimiters(input) == input
    decreases |input|
  {
    if |input| > 0 {
      assert !OccursAt(input, "<?", 0);
      assert SpanAt(input).None?;
      assert !Contains(input[1..], "<?") by {
        forall i: nat | i <= |input[1..]|
          ensures !OccursAt(input[1..], "<?", i)
        {
          assert !OccursAt(input, "<?", i + 1);
          if i + 2 <= |input[1..]| {
            assert input[1..][i..i + 2] == input[i + 1..i + 3];
          }
        }
      }
      NoOpenerUnchanged(input[1..]);
      assert [input[0]] + input[1..] == input;
    }
  }

  /** Either opener is recognised, whatever follows it. */
  lemma OpenerLengthOf(opener: string, rest: string)
    requires opener == "<?=" || opener == "<?php"
    ensures OpenerLength(opener + rest) == |opener|
  {
    var s := opener + rest;
    assert opener <= s;
    if opener == "<?php" {
      assert s[2] == 'p';
      assert !("<?=" <= s);
    }
  }

  /** The search for `?>` stops at the first one. */
  lemma FindCloseAt(s: string, from: nat, close: nat)
    requires from <= close && OccursAt(s, "?>", close)
    requires forall q: nat :: from <= q < close ==> !OccursAt(s, "?>", q)
    ensures FindClose(s, from) == Some(close)
  {
    match FindClose(s, from)
    case None =>
      assert false;
    case Some(p) =>
      assert !(p < close);
      assert !(close < p);
  }

  /** When a body free of `?>` sits at `o` and is followed by `?>`, the
      search from just after the body's first character stops right after
      the body. */
  lemma CloseAfterBody(s: string, o: nat, body: string)
    requires |body| >= 1 && !Contains(body, "?>")
    requires o + |body| + 2 <= |s| && s[o..o + |body|] == body
    requires s[o + |body|..o + |body| + 2] == "?>"
    ensures FindClose(s, o + 1) == Some(o + |body|)
  {
    var close := o + |body|;
    forall q: nat | o + 1 <= q < close
      ensures !OccursAt(s, "?>", q)
    {
      if q + 1 < close {
        assert s[q..q + 2] == s[o..close][q - o..q - o + 2];
        assert !OccursAt(body, "?>", q - o);
        assert body[q - o..q - o + 2] != "?>";
        assert s[q..q + 2] != "?>";
      } else {
        assert s[q + 1] == s[close..close + 2][0];
        assert s[q..q + 2][1] == '?';
        assert s[q..q + 2] != "?>";
      }
    }
    FindCloseAt(s, o + 1, close);
  }

  /** One complete span is replaced by the placeholder, whichever opener it
      uses, as long as its body does not itself hold `?>`. */
  lemma SpanReplaced(opener: string, body: string, post: string)
    requires opener == "<?=" || opener == "<?php"
    requires |body| >= 1 && !Contains(body, "?>")
    ensures ReplacePHPDelimiters(opener + body + "?>" + post)
            == PHP_DELIM_PLACEHOLDER + ReplacePHPDelimiters(post)
  {
    var s := opener + body + "?>" + post;
    var close := |opener| + |body|;
    assert s == opener + (body + "?>" + post);
    OpenerLengthOf(opener, body + "?>" + post);
    assert s[|opener|..close] == body;
    assert s[close..close + 2] == "?>";
    CloseAfterBody(s, |opener|, body);
    assert SpanAt(s) == Some(close + 2);
    assert s[close + 2..] == post;
  }

  // ---------------------------------------------------------------------
  // De-duplication
  // ---------------------------------------------------------------------

  /** `Array.from(new Set(xs))`: each value once, at its first occurrence. */
  function Dedup<T(==)>(xs: seq<T>): seq<T>
  {
    if |xs| == 0 then []
    else
      var d := Dedup(xs[..|xs| - 1]);
      if xs[|xs| - 1] in d then d else d + [xs[|xs| - 1]]
  }

  /** The same values, none twice, and nothing changes for a list that
      already had no repetition. */
  lemma {:induction false} DedupSound<T>(xs: seq<T>)
    ensures forall x :: x in Dedup(xs) <==> x in xs
    ensures NoDuplicates(Dedup(xs))
    ensures NoDuplicates(xs) ==> Dedup(xs) == xs
  {
    if |xs| > 0 {
      var init := xs[..|xs| - 1];
      DedupSound(init);
      assert xs == init + [xs[|xs| - 1]];
      if NoDuplicates(xs) {
        assert NoDuplicates(init);
        assert xs[|xs| - 1] !in init by {
          forall i | 0 <= i < |init| ensures init[i] != xs[|xs| - 1] {
            assert init[i] == xs[i];
          }
        }
      }
    }
  }

  /** First-occurrence order: appending more values never reorders or
      removes what was already kept. */
  lemma {:induction false} DedupPrefix<T>(xs: seq<T>, ys: seq<T>)
    ensures Dedup(xs) <= Dedup(xs + ys)
    decreases |ys|
  {
    if |ys| == 0 {
      assert xs + ys == xs;
    } else {
      var ys' := ys[..|ys| - 1];
      assert (xs + ys)[..|xs + ys| - 1] == xs + ys';
      DedupPrefix(xs, ys');
    }
  }

  // ---------------------------------------------------------------------
  // Property names of object literals
  // ---------------------------------------------------------------------

  /** TypeError messages of the reads the source makes on a missing value. */
  const KEY_OF_UNDEFINED := "Cannot read properties of undefined (reading 'type')"
  const PROPERTIES_OF_UNDEFINED := "Cannot read properties of undefined (reading 'properties')"
  const PROPERTIES_NOT_ITERABLE := "node.properties is not iterable"
  const NO_MAGE_INIT := "Could not locate \"mageInit\" property"

  /** The per-element results of `xs`, concatenated in order; the first
      error ends the walk. */
  function Collect(xs: seq<Node>, f: Node -> Result<seq<string>>): Result<seq<string>>
  {
    if |xs| == 0 then Ok([])
    else
      match Collect(xs[..|xs| - 1], f)
      case Err(e) => Err(e)
      case Ok(prefix) =>
        match f(xs[|xs| - 1])
        case Err(e) => Err(e)
        case Ok(more) => Ok(prefix + more)
  }

  lemma CollectStep(xs: seq<Node>, i: nat, f: Node -> Result<seq<string>>)
    requires i < |xs|
    ensures Collect(xs[..i + 1], f) ==
            match Collect(xs[..i], f)
            case Err(e) => Err(e)
            case Ok(prefix) => (match f(xs[i]) case Err(e) => Err(e) case Ok(more) => Ok(prefix + more))
  {
    assert xs[..i + 1][..i] == xs[..i];
  }

  lemma {:induction false} CollectErrorIsFinal(xs: seq<Node>, k: nat, f: Node -> Result<seq<string>>)
    requires k <= |xs| && Collect(xs[..k], f).Err?
    ensures Collect(xs, f) == Collect(xs[..k], f)
    decreases |xs| - k
  {
    if k < |xs| {
      CollectStep(xs, k, f);
      CollectErrorIsFinal(xs, k + 1, f);
    } else {
      assert xs[..k] == xs;
    }
  }

  /** The name a key contributes: a string literal's value or an
      identifier's name; any other key contributes nothing. */
  function KeyNames(key: Node): seq<string>
  {
    match key
    case StringLiteral(value) => [value]
    case Identifier(name) => [name]
    case _ => []
  }

  /** A member of an object literal: a property gives its key's name; a
      spread element has no `key`, and reading its type throws. */
  function MemberNames(member: Node): Result<seq<string>>
  {
    if member.Property? then Ok(KeyNames(member.key)) else Err(KEY_OF_UNDEFINED)
  }

  /** What getPropertyNamesFromObjExpression answers for a node that the
      source only casts to an object literal. */
  function PropertyNames(node: Node): Result<seq<string>>
  {
    if node.ObjectExpression? then Collect(node.properties, MemberNames)
    else Err(PROPERTIES_NOT_ITERABLE)
  }

  /** The names are exactly the string-literal and identifier keys. */
  lemma {:induction false} CollectNamesExactly(props: seq<Node>)
    requires Collect(props, MemberNames).Ok?
    ensures forall d :: d in Collect(props, MemberNames).value <==>
              exists i :: 0 <= i < |props| && props[i].Property? && d in KeyNames(props[i].key)
    ensures |Collect(props, MemberNames).value| <= |props|
  {
    if |props| > 0 {
      var init := props[..|props| - 1];
      var last := props[|props| - 1];
      assert Collect(init, MemberNames).Ok?;
      CollectNamesExactly(init);
      var names := Collect(props, MemberNames).value;
      assert names == Collect(init, MemberNames).value + KeyNames(last.key);
      forall d
        ensures d in names <==> exists i :: 0 <= i < |props| && props[i].Property? && d in KeyNames(props[i].key)
      {
        if exists i :: 0 <= i < |props| && props[i].Property? && d in KeyNames(props[i].key) {
          var i :| 0 <= i < |props| && props[i].Property? && d in KeyNames(props[i].key);
          if i < |init| {
            assert init[i] == props[i];
          }
        }
        if d in Collect(init, MemberNames).value {
          var i :| 0 <= i < |init| && init[i].Property? && d in KeyNames(init[i].key);
          assert props[i] == init[i];
        }
      }
    }
  }

  /** getPropertyNamesFromObjExpression */
  method GetPropertyNamesFromObjExpression(node: Node) returns (r: Result<seq<string>>)
    ensures r == PropertyNames(node)
  {
    if !node.ObjectExpression? {
      return Err(PROPERTIES_NOT_ITERABLE);
    }
    var props := node.properties;
    var keys: seq<string> := [];
    var i := 0;
    while i < |props|
      invariant 0 <= i <= |props|
      invariant Collect(props[..i], MemberNames) == Ok(keys)
    {
      var member := props[i];
      CollectStep(props, i, MemberNames);
      if !member.Property? {
        CollectErrorIsFinal(props, i + 1, MemberNames);
        return Err(KEY_OF_UNDEFINED);
      }
      var key := member.key;
      ghost var before := keys;
      if key.StringLiteral? {
        keys := keys + [key.value];
      }
      if key.Identifier? {
        keys := keys + [key.name];
      }
      assert keys == before + KeyNames(key);
      i := i + 1;
    }
    assert props[..i] == props;
    r := Ok(keys);
  }

  // ---------------------------------------------------------------------
  // The three extractors
  // ---------------------------------------------------------------------

  /** What extractDepsFromDataMageInitAttr answers: the keys of the
      attribute's object literal. */
  function DataMageInitDeps(parsers: JsParser.Parsers, attrValue: string): Result<seq<string>>
  {
    match JsParser.ParseObjectExpression(parsers, attrValue, false)
    case Err(e) => Err(e)
    case Ok(obj) => PropertyNames(obj)
  }

  /** `properties.find(p => p.key.type === 'Identifier' && p.key.name === 'mageInit')`;
      a spread element met before the match throws. */
  function FindMageInit(props: seq<Node>): (r: Result<Option<Node>>)
    ensures r.Ok? && r.value.Some? ==> r.value.value in props && r.value.value.Property?
                                       && r.value.value.key == Identifier("mageInit")
    ensures r == Ok(None) ==> forall i :: 0 <= i < |props| ==> props[i].Property? && props[i].key != Identifier("mageInit")
  {
    if |props| == 0 then Ok(None)
    else if !props[0].Property? then Err(KEY_OF_UNDEFINED)
    else if props[0].key == Identifier("mageInit") then Ok(Some(props[0]))
    else
      var r := FindMageInit(props[1..]);
      assert forall i :: 1 <= i < |props| ==> props[i] == props[1..][i - 1];
      r
  }

  /** What extractMageInitDepsFromDataBind answers: the binding text is an
      object literal without its braces; the keys of its `mageInit` value. */
  function DataBindDeps(parsers: JsParser.Parsers, attrValue: string): Result<seq<string>>
  {
    match JsParser.ParseObjectExpression(parsers, "{" + attrValue + "}", false)
    case Err(e) => Err(e)
    case Ok(obj) =>
      match FindMageInit(obj.properties)
      case Err(e) => Err(e)
      case Ok(None) => Err(NO_MAGE_INIT)
      case Ok(Some(prop)) => PropertyNames(prop.propValue)
  }

  /** The component names under one selector of an x-magento-init object. */
  function SelectorDeps(selector: Node): Result<seq<string>>
  {
    if selector.Property? then PropertyNames(selector.propValue) else Err(PROPERTIES_OF_UNDEFINED)
  }

  /** What extractDepsFromXMagentoInit answers: the component names of
      every selector, concatenated in selector order. */
  function XMagentoInitDeps(parsers: JsParser.Parsers, input: string): Result<seq<string>>
  {
    match JsParser.ParseObjectExpression(parsers, input, false)
    case Err(e) => Err(e)
    case Ok(obj) => Collect(obj.properties, SelectorDeps)
  }

  /** extractDepsFromDataMageInitAttr */
  method ExtractDepsFromDataMageInitAttr(parsers: JsParser.Parsers, attrValue: string)
    returns (r: Result<seq<string>>)
    ensures r == DataMageInitDeps(parsers, attrValue)
  {
    var obj := JsParser.ParseObjectExpression(parsers, attrValue, false);
    if obj.Err? {
      return Err(obj.error);
    }
    r := GetPropertyNamesFromObjExpression(obj.value);
  }

  /** extractMageInitDepsFromDataBind */
  method ExtractMageInitDepsFromDataBind(parsers: JsParser.Parsers, attrValue: string)
    returns (r: Result<seq<string>>)
    ensures r == DataBindDeps(parsers, attrValue)
  {
    var obj := JsParser.ParseObjectExpression(parsers, "{" + attrValue + "}", false);
    if obj.Err? {
      return Err(obj.error);
    }
    var mageInitProp := FindMageInit(obj.value.properties);
    if mageInitProp.Err? {
      return Err(mageInitProp.error);
    }
    if mageInitProp.value.None? {
      return Err(NO_MAGE_INIT);
    }
    r := GetPropertyNamesFromObjExpression(mageInitProp.value.value.propValue);
  }

  /** extractDepsFromXMagentoInit */
  method ExtractDepsFromXMagentoInit(parsers: JsParser.Parsers, input: string)
    returns (r: Result<seq<string>>)
    ensures r == XMagentoInitDeps(parsers, input)
  {
    var obj := JsParser.ParseObjectExpression(parsers, input, false);
    if obj.Err? {
      return Err(obj.error);
    }
    var selectors := obj.value.properties;
    var deps: seq<string> := [];
    var i := 0;
    while i < |selectors|
      invariant 0 <= i <= |selectors|
      invariant Collect(selectors[..i], SelectorDeps) == Ok(deps)
    {
      var selector := selectors[i];
      CollectStep(selectors, i, SelectorDeps);
      if !selector.Property? {
        CollectErrorIsFinal(selectors, i + 1, SelectorDeps);
        return Err(PROPERTIES_OF_UNDEFINED);
      }
      var names := GetPropertyNamesFromObjExpression(selector.propValue);
      if names.Err? {
        CollectErrorIsFinal(selectors, i + 1, SelectorDeps);
        return names;
      }
      deps := deps + names.value;
      i := i + 1;
    }
    assert selectors[..i] == selectors;
    r := Ok(deps);
  }

  // ---------------------------------------------------------------------
  // The collector state machine
  // ---------------------------------------------------------------------

  /** What htmlparser2 reports to its handler. */
  datatype HtmlEvent =
    | OpenTag(name: string, attribs: map<string, string>)
    | Text(value: string)
    | CloseTag(name: string)

  datatype CollectorState = CollectorState(
    deps: seq<string>,
    incompleteAnalysis: bool,
    inXMageInitScript: bool,
    inScript: bool,
    buffer: string)

  const INITIAL_STATE := CollectorState([], false, false, false, "")

  /** An attribute's value, with "" for a missing one (both are falsy). */
  function AttrValue(attribs: map<string, string>, key: string): string
  {
    if key in attribs then attribs[key] else ""
  }

  /** `try { deps.push(...extract()) } catch { incompleteAnalysis = true }` */
  function AfterExtract(st: CollectorState, r: Result<seq<string>>): CollectorState
  {
    match r
    case Ok(found) => st.(deps := st.deps + found)
    case Err(_) => st.(incompleteAnalysis := true)
  }

  /** onopentag */
  function OpenTagStep(parsers: JsParser.Parsers, st: CollectorState, name: string,
                       attribs: map<string, string>): CollectorState
  {
    var dataMageInit := AttrValue(attribs, "data-mage-init");
    var dataBind := AttrValue(attribs, "data-bind");
    var st1 := if dataMageInit != "" then AfterExtract(st, DataMageInitDeps(parsers, dataMageInit)) else st;
    var st2 := if dataBind != "" && Contains(dataBind, "mageInit")
               then AfterExtract(st1, DataBindDeps(parsers, dataBind)) else st1;
    if name == "script" then ScriptTagStep(st2, attribs) else st2
  }

  /** A `<script>` tag enters the state its type (text/javascript when
      absent) selects. */
  function ScriptTagStep(st: CollectorState, attribs: map<string, string>): CollectorState
  {
    var scriptType := if "type" in attribs then attribs["type"] else "text/javascript";
    st.(inScript := st.inScript || scriptType == "text/javascript",
        inXMageInitScript := st.inXMageInitScript || scriptType == "text/x-magento-init")
  }

  /** ontext */
  function TextStep(st: CollectorState, value: string): CollectorState
  {
    if !(st.inXMageInitScript || st.inScript) then st else st.(buffer := st.buffer + value)
  }

  /** onclosetag: an x-magento-init buffer is read first; a plain script
      buffer is then parsed leniently as JavaScript. */
  function CloseTagStep(parsers: JsParser.Parsers, st: CollectorState): CollectorState
  {
    var st1 := if st.inXMageInitScript
               then AfterExtract(st, XMagentoInitDeps(parsers, st.buffer)).(buffer := "", inXMageInitScript := false)
               else st;
    if st1.inScript then
      var st2 := match JsDeps.JavaScriptDeps(parsers, st1.buffer, true)
                 case Ok(results) => st1.(deps := st1.deps + results.deps,
                                          incompleteAnalysis := st1.incompleteAnalysis || results.incompleteAnalysis)
                 case Err(_) => st1.(incompleteAnalysis := true);
      st2.(buffer := "", inScript := false)
    else st1
  }

  function Step(parsers: JsParser.Parsers, st: CollectorState, event: HtmlEvent): CollectorState
  {
    match event
    case OpenTag(name, attribs) => OpenTagStep(parsers, st, name, attribs)
    case Text(value) => TextStep(st, value)
    case CloseTag(_) => CloseTagStep(parsers, st)
  }

  /** The state after handling `events` in order. */
  function Run(parsers: JsParser.Parsers, st: CollectorState, events: seq<HtmlEvent>): CollectorState
  {
    if |events| == 0 then st
    else Step(parsers, Run(parsers, st, events[..|events| - 1]), events[|events| - 1])
  }

  /** Handling one more event takes one more step. */
  lemma RunPrefixStep(parsers: JsParser.Parsers, st: CollectorState, events: seq<HtmlEvent>, i: nat)
    requires i < |events|
    ensures Run(parsers, st, events[..i + 1]) == Step(parsers, Run(parsers, st, events[..i]), events[i])
  {
    assert events[..i + 1][..i] == events[..i];
  }

  /** What parseTemplateDeps answers, for the events the tokenizer reports on
      the cleaned text. */
  function TemplateDeps(parsers: JsParser.Parsers, tokenize: string -> seq<HtmlEvent>, input: string)
    : JsDeps.ParserResult
  {
    var st := Run(parsers, INITIAL_STATE, tokenize(ReplacePHPDelimiters(input)));
    JsDeps.ParserResult(Dedup(st.deps), st.incompleteAnalysis)
  }

  /** A step never drops collected deps and never clears the flag: a failing
      extractor only sets it. */
  lemma StepKeepsFindings(parsers: JsParser.Parsers, st: CollectorState, event: HtmlEvent)
    ensures st.deps <= Step(parsers, st, event).deps
    ensures st.incompleteAnalysis ==> Step(parsers, st, event).incompleteAnalysis
  {
    match event
    case OpenTag(name, attribs) => OpenTagKeepsFindings(parsers, st, name, attribs);
    case Text(_) =>
    case CloseTag(_) => CloseTagKeepsFindings(parsers, st);
  }

  lemma AfterExtractKeepsFindings(st: CollectorState, r: Result<seq<string>>)
    ensures st.deps <= AfterExtract(st, r).deps
    ensures st.incompleteAnalysis ==> AfterExtract(st, r).incompleteAnalysis
    ensures AfterExtract(st, r).inScript == st.inScript
    ensures AfterExtract(st, r).inXMageInitScript == st.inXMageInitScript
    ensures AfterExtract(st, r).buffer == st.buffer
  {
  }

  lemma OpenTagKeepsFindings(parsers: JsParser.Parsers, st: CollectorState, name: string,
                             attribs: map<string, string>)
    ensures st.deps <= OpenTagStep(parsers, st, name, attribs).deps
    ensures st.incompleteAnalysis ==> OpenTagStep(parsers, st, name, attribs).incompleteAnalysis
  {
    var dataMageInit := AttrValue(attribs, "data-mage-init");
    var dataBind := AttrValue(attribs, "data-bind");
    var st1 := if dataMageInit != "" then AfterExtract(st, DataMageInitDeps(parsers, dataMageInit)) else st;
    AfterExtractKeepsFindings(st, DataMageInitDeps(parsers, dataMageInit));
    AfterExtractKeepsFindings(st1, DataBindDeps(parsers, dataBind));
  }

  lemma CloseTagKeepsFindings(parsers: JsParser.Parsers, st: CollectorState)
    ensures st.deps <= CloseTagStep(parsers, st).deps
    ensures st.incompleteAnalysis ==> CloseTagStep(parsers, st).incompleteAnalysis
  {
    AfterExtractKeepsFindings(st, XMagentoInitDeps(parsers, st.buffer));
  }

  lemma {:induction false} RunKeepsFindings(parsers: JsParser.Parsers, st: CollectorState, events: seq<HtmlEvent>)
    ensures st.deps <= Run(parsers, st, events).deps
    ensures st.incompleteAnalysis ==> Run(parsers, st, events).incompleteAnalysis
  {
    if |events| > 0 {
      RunKeepsFindings(parsers, st, events[..|events| - 1]);
      StepKeepsFindings(parsers, Run(parsers, st, events[..|events| - 1]), events[|events| - 1]);
    }
  }

  /** A failing `data-mage-init` extraction sets the flag and adds nothing
      of its own. */
  lemma FailedMageInitSetsFlag(parsers: JsParser.Parsers, st: CollectorState, name: string,
                               attribs: map<string, string>)
    requires AttrValue(attribs, "data-mage-init") != ""
    requires DataMageInitDeps(parsers, AttrValue(attribs, "data-mage-init")).Err?
    ensures OpenTagStep(parsers, st, name, attribs).incompleteAnalysis
  {
  }

  /** Text is buffered only inside a script being collected. */
  predicate BufferOnlyInScript(st: CollectorState)
  {
    st.buffer == "" || st.inScript || st.inXMageInitScript
  }

  lemma StepKeepsBufferInScript(parsers: JsParser.Parsers, st: CollectorState, event: HtmlEvent)
    requires BufferOnlyInScript(st)
    ensures BufferOnlyInScript(Step(parsers, st, event))
    ensures event.Text? && !(st.inScript || st.inXMageInitScript) ==> Step(parsers, st, event) == st
  {
    match event {
      case OpenTag(name, attribs) => OpenTagKeepsBuffer(parsers, st, name, attribs);
      case Text(_) =>
      case CloseTag(_) => CloseTagConsumesBuffer(parsers, st);
    }
  }

  /** An open tag leaves the buffer alone and can only enter a script
      state. */
  lemma OpenTagKeepsBuffer(parsers: JsParser.Parsers, st: CollectorState, name: string, attribs: map<string, string>)
    ensures var after := OpenTagStep(parsers, st, name, attribs);
            && after.buffer == st.buffer
            && (st.inScript ==> after.inScript)
            && (st.inXMageInitScript ==> after.inXMageInitScript)
  {
    var dataMageInit := AttrValue(attribs, "data-mage-init");
    var dataBind := AttrValue(attribs, "data-bind");
    var st1 := if dataMageInit != "" then AfterExtract(st, DataMageInitDeps(parsers, dataMageInit)) else st;
    assert st1.buffer == st.buffer && st1.inScript == st.inScript && st1.inXMageInitScript == st.inXMageInitScript;
  }

  /** A close tag inside a script consumes the buffer and leaves both script
      states; outside one it changes nothing. */
  lemma CloseTagConsumesBuffer(parsers: JsParser.Parsers, st: CollectorState)
    ensures var after := CloseTagStep(parsers, st);
            !after.inScript && !after.inXMageInitScript
            && (st.inScript || st.inXMageInitScript ==> after.buffer == "")
            && (!st.inScript && !st.inXMageInitScript ==> after == st)
  {
  }

  /** An incomplete analysis of a script's JavaScript carries over. */
  lemma ScriptFlagPropagates(parsers: JsParser.Parsers, st: CollectorState)
    requires st.inScript && !st.inXMageInitScript
    requires JsDeps.JavaScriptDeps(parsers, st.buffer, true).Ok?
    requires JsDeps.JavaScriptDeps(parsers, st.buffer, true).value.incompleteAnalysis
    ensures CloseTagStep(parsers, st).incompleteAnalysis
  {
  }

  /** The answer holds every collected dep once, in first-occurrence order. */
  lemma TemplateDepsAreDistinct(parsers: JsParser.Parsers, tokenize: string -> seq<HtmlEvent>, input: string)
    ensures var st := Run(parsers, INITIAL_STATE, tokenize(ReplacePHPDelimiters(input)));
            var r := TemplateDeps(parsers, tokenize, input);
            NoDuplicates(r.deps) && (forall d :: d in r.deps <==> d in st.deps)
  {
    DedupSound(Run(parsers, INITIAL_STATE, tokenize(ReplacePHPDelimiters(input))).deps);
  }

  /** The NodeCollector handler; its state is the five fields of the source. */
  class NodeCollector {
    var deps: seq<string>
    var incompleteAnalysis: bool
    var inXMageInitScript: bool
    var inScript: bool
    var buffer: string

    function State(): CollectorState
      reads this
    {
      CollectorState(deps, incompleteAnalysis, inXMageInitScript, inScript, buffer)
    }

    constructor()
      ensures State() == INITIAL_STATE
    {
      deps := [];
      incompleteAnalysis := false;
      inXMageInitScript := false;
      inScript := false;
      buffer := "";
    }

    /** `try { deps.push(...found) } catch { incompleteAnalysis = true }` */
    method Absorb(found: Result<seq<string>>)
      modifies this
      ensures State() == AfterExtract(old(State()), found)
    {
      if found.Ok? {
        deps := deps + found.value;
      } else {
        incompleteAnalysis := true;
      }
    }

    method OnOpenTag(parsers: JsParser.Parsers, name: string, attribs: map<string, string>)
      modifies this
      ensures State() == OpenTagStep(parsers, old(State()), name, attribs)
    {
      var dataMageInit := AttrValue(attribs, "data-mage-init");
      var dataBind := AttrValue(attribs, "data-bind");
      ghost var st := State();
      if dataMageInit != "" {
        var found := ExtractDepsFromDataMageInitAttr(parsers, dataMageInit);
        Absorb(found);
      }
      ghost var st1 := State();
      assert st1 == if dataMageInit != "" then AfterExtract(st, DataMageInitDeps(parsers, dataMageInit)) else st;
      if dataBind != "" && Contains(dataBind, "mageInit") {
        var found := ExtractMageInitDepsFromDataBind(parsers, dataBind);
        Absorb(found);
      }
      assert State() == if dataBind != "" && Contains(dataBind, "mageInit")
                        then AfterExtract(st1, DataBindDeps(parsers, dataBind)) else st1;
      if name == "script" {
        EnterScript(attribs);
      }
    }

    method EnterScript(attribs: map<string, string>)
      modifies this
      ensures State() == ScriptTagStep(old(State()), attribs)
    {
      var scriptType := if "type" in attribs then attribs["type"] else "text/javascript";
      if scriptType == "text/javascript" {
        inScript := true;
      }
      if scriptType == "text/x-magento-init" {
        inXMageInitScript := true;
      }
    }

    method OnText(value: string)
      modifies this
      ensures State() == TextStep(old(State()), value)
    {
      if !(inXMageInitScript || inScript) {
        return;
      }
      buffer := buffer + value;
    }

    method OnCloseTag(parsers: JsParser.Parsers)
      modifies this
      ensures State() == CloseTagStep(parsers, old(State()))
    {
      if inXMageInitScript {
        var found := ExtractDepsFromXMagentoInit(parsers, buffer);
        if found.Ok? {
          deps := deps + found.value;
        } else {
          incompleteAnalysis := true;
        }
        buffer := "";
        inXMageInitScript := false;
      }
      if inScript {
        var results := JsDeps.ParseJavaScriptDeps(parsers, buffer, true);
        if results.Ok? {
          deps := deps + results.value.deps;
          if results.value.incompleteAnalysis {
            incompleteAnalysis := true;
          }
        } else {
          incompleteAnalysis := true;
        }
        buffer := "";
        inScript := false;
      }
    }
  }

  /** parseTemplateDeps */
  method ParseTemplateDeps(parsers: JsParser.Parsers, tokenize: string -> seq<HtmlEvent>, input: string)
    returns (r: JsDeps.ParserResult)
    ensures r == TemplateDeps(parsers, tokenize, input)
  {
    var collector := new NodeCollector();
    var cleanedInput := ReplacePHPDelimiters(input);
    var events := tokenize(cleanedInput);
    var i := 0;
    while i < |events|
      invariant 0 <= i <= |events|
      invariant collector.State() == Run(parsers, INITIAL_STATE, events[..i])
    {
      var event := events[i];
      ghost var before := collector.State();
      match event {
        case OpenTag(name, attribs) => collector.OnOpenTag(parsers, name, attribs);
        case Text(value) => collector.OnText(value);
        case CloseTag(_) => collector.OnCloseTag(parsers);
      }
      assert collector.State() == Step(parsers, before, event);
      RunPrefixStep(parsers, INITIAL_STATE, events, i);
      i := i + 1;
    }
    assert events[..i] == events;
    r := JsDeps.ParserResult(Dedup(collector.deps), collector.incompleteAnalysis);
  }
}
