/** transformAMD.ts: the source rewrites that turn a module into a named AMD
    module fit for a bundle, and the two regular-expression tests that pick
    the rewrite. MagicString edits are plain concatenation here. */
module TransformAmd {
  import opened Wrappers
  import opened Strings
  import Mixins
  import RequireConfig

  // ---------------------------------------------------------------------
  // /define\s*\(/ and /define\s*\(\s*['"]/
  // ---------------------------------------------------------------------

  /** The first index at or after `j` that is not white space (or |s|):
      where a greedy `\s*` starting at `j` stops. */
  function SkipWs(s: string, j: nat): (k: nat)
    requires j <= |s|
    ensures j <= k <= |s|
    ensures forall m :: j <= m < k ==> IsJsWhitespace(s[m])
    ensures k < |s| ==> !IsJsWhitespace(s[k])
    decreases |s| - j
  {
    if j < |s| && IsJsWhitespace(s[j]) then SkipWs(s, j + 1) else j
  }

  /** `define\s*\(` matches at `i`. */
  predicate DefineAt(s: string, i: nat)
  {
    && i + 6 <= |s| && s[i..i + 6] == "define"
    && SkipWs(s, i + 6) < |s| && s[SkipWs(s, i + 6)] == '('
  }

  /** Where the match at `i` ends: just after its parenthesis. */
  function DefineEnd(s: string, i: nat): (e: nat)
    requires DefineAt(s, i)
    ensures i + 7 <= e <= |s| && s[e - 1] == '('
  {
    SkipWs(s, i + 6) + 1
  }

  /** The regular expression read literally: "define", any run of white
      space, then '('. */
  predicate RegexDefineAt(s: string, i: nat)
  {
    && i + 6 <= |s| && s[i..i + 6] == "define"
    && exists k :: i + 6 <= k < |s| && s[k] == '(' && forall m :: i + 6 <= m < k ==> IsJsWhitespace(s[m])
  }

  /** `DefineAt` is the regular expression, and a match has one end only:
      '(' is not white space, so the run of white space cannot go past it. */
  lemma DefineAtIsRegex(s: string, i: nat)
    ensures DefineAt(s, i) <==> RegexDefineAt(s, i)
    ensures DefineAt(s, i) ==>
              forall k :: i + 6 <= k < |s| && s[k] == '(' && (forall m :: i + 6 <= m < k ==> IsJsWhitespace(s[m]))
                 ==> k + 1 == DefineEnd(s, i)
  {
    if i + 6 <= |s| {
      forall k | i + 6 <= k < |s| && s[k] == '(' && (forall m :: i + 6 <= m < k ==> IsJsWhitespace(s[m]))
        ensures k == SkipWs(s, i + 6)
      {
        assert !IsJsWhitespace(s[k]);
      }
    }
  }

  /** isAMDWithDefine: `RE_DEFINE.test(source)` */
  predicate IsAMDWithDefine(source: string)
  {
    exists i | 0 <= i < |source| :: DefineAt(source, i)
  }

  /** `define\s*\(\s*['"]` matches at `i`. */
  predicate NamedAt(s: string, i: nat)
  {
    && DefineAt(s, i)
    && SkipWs(s, DefineEnd(s, i)) < |s|
    && (s[SkipWs(s, DefineEnd(s, i))] == '\'' || s[SkipWs(s, DefineEnd(s, i))] == '"')
  }

  /** isNamedAMD: `RE_NAMED_AMD.exec(source)` found a match. */
  predicate IsNamedAMD(source: string)
  {
    exists i | 0 <= i < |source| :: NamedAt(source, i)
  }

  /** A named module always passes the `define` test. */
  lemma NamedImpliesDefine(source: string)
    requires IsNamedAMD(source)
    ensures IsAMDWithDefine(source)
  {
    var i :| 0 <= i < |source| && NamedAt(source, i);
    assert DefineAt(source, i);
  }

  /** The leftmost match at or after `from`, which `String.prototype.match`
      reports. */
  function FirstDefineFrom(s: string, from: nat): (r: Option<nat>)
    requires from <= |s|
    ensures r.Some? ==> from <= r.value < |s| && DefineAt(s, r.value)
    ensures r.Some? ==> forall k :: from <= k < r.value ==> !DefineAt(s, k)
    ensures r.None? ==> forall k :: from <= k < |s| ==> !DefineAt(s, k)
    decreases |s| - from
  {
    if from == |s| then None
    else if DefineAt(s, from) then Some(from)
    else FirstDefineFrom(s, from + 1)
  }

  // ---------------------------------------------------------------------
  // renameModule
  // ---------------------------------------------------------------------

  const RE_DEFINE_FAILED := "Failed RE_DEFINE RegExp. Should have used a real parser"

  /** The text renameModule inserts. */
  function IdArgument(id: string): string
  {
    "'" + id + "', "
  }

  /** renameModule: `'<id>', ` goes right after the first `define\s*\(`;
      without a match the source is rejected. */
  function RenameModule(id: string, source: string): (r: Result<string>)
  {
    match FirstDefineFrom(source, 0)
    case None => Err(RE_DEFINE_FAILED)
    case Some(i) =>
      var e := DefineEnd(source, i);
      Ok(source[..e] + IdArgument(id) + source[e..])
  }

  /** renameModule succeeds exactly for the sources isAMDWithDefine accepts. */
  lemma RenameModuleSucceedsIffDefine(id: string, source: string)
    ensures RenameModule(id, source).Ok? <==> IsAMDWithDefine(source)
    ensures RenameModule(id, source).Err? ==> RenameModule(id, source).error == RE_DEFINE_FAILED
  {
    if IsAMDWithDefine(source) {
      var i :| 0 <= i < |source| && DefineAt(source, i);
    }
  }

  /** renameModule inserts the ID argument just after the first match's
      parenthesis and changes nothing else: taking the insertion out gives
      the source back. */
  lemma RenameModuleOnlyInserts(id: string, source: string)
    requires IsAMDWithDefine(source)
    ensures var i := FirstDefineFrom(source, 0).value;
            var e := DefineEnd(source, i);
            var r := RenameModule(id, source).value;
            && (forall k :: 0 <= k < i ==> !DefineAt(source, k))
            && |r| == |source| + |IdArgument(id)|
            && r[..e] == source[..e]
            && r[e..e + |IdArgument(id)|] == IdArgument(id)
            && r[..e] + r[e + |IdArgument(id)|..] == source
  {
    RenameModuleSucceedsIffDefine(id, source);
    var i := FirstDefineFrom(source, 0).value;
    var e := DefineEnd(source, i);
    var r := RenameModule(id, source).value;
    assert r == source[..e] + IdArgument(id) + source[e..];
    assert r[e + |IdArgument(id)|..] == source[e..];
    assert source[..e] + source[e..] == source;
  }

  /** A renamed module is a named module: the match is kept, and the
      inserted argument starts with a quote. */
  lemma RenamedModuleIsNamed(id: string, source: string)
    requires IsAMDWithDefine(source)
    ensures IsNamedAMD(RenameModule(id, source).value)
  {
    RenameModuleSucceedsIffDefine(id, source);
    var i := FirstDefineFrom(source, 0).value;
    var e := DefineEnd(source, i);
    var r := RenameModule(id, source).value;
    assert r == source[..e] + IdArgument(id) + source[e..];
    assert r[..e] == source[..e];
    SkipWsSamePrefix(source, r, i + 6, e);
    assert r[i..i + 6] == source[i..i + 6];
    assert DefineAt(r, i) && DefineEnd(r, i) == e;
    assert r[e] == '\'';
    assert SkipWs(r, e) == e;
    assert NamedAt(r, i);
  }

  /** Skipping white space only looks at the text it skips and the character
      that stops it. */
  lemma {:induction false} SkipWsSamePrefix(s: string, t: string, j: nat, e: nat)
    requires j <= e <= |s| && e <= |t| && s[..e] == t[..e]
    requires SkipWs(s, j) < e
    ensures SkipWs(t, j) == SkipWs(s, j)
    decreases |s| - j
  {
    assert s[j] == s[..e][j] == t[..e][j] == t[j];
    if IsJsWhitespace(s[j]) {
      SkipWsSamePrefix(s, t, j + 1, e);
    }
  }

  /** An anonymous module that starts with its define: the ID goes right
      after the parenthesis, white space before it staying where it is
      ("define  (function() {});" gives "define  ('bar', function() {});"). */
  lemma RenameLeadingDefine(id: string, ws: string, rest: string)
    requires forall m :: 0 <= m < |ws| ==> IsJsWhitespace(ws[m])
    ensures RenameModule(id, "define" + ws + "(" + rest) == Ok("define" + ws + "(" + IdArgument(id) + rest)
  {
    var s := "define" + ws + "(" + rest;
    var e := 6 + |ws| + 1;
    assert s[..6] == "define";
    assert forall m :: 6 <= m < 6 + |ws| ==> s[m] == ws[m - 6];
    assert s[6 + |ws|] == '(';
    assert !IsJsWhitespace('(');
    assert SkipWs(s, 6) == 6 + |ws| by {
      SkipWsOver(s, 6, 6 + |ws|);
    }
    assert DefineAt(s, 0);
    assert s[..e] == "define" + ws + "(" && s[e..] == rest;
  }

  lemma {:induction false} SkipWsOver(s: string, j: nat, k: nat)
    requires j <= k < |s| && !IsJsWhitespace(s[k])
    requires forall m :: j <= m < k ==> IsJsWhitespace(s[m])
    ensures SkipWs(s, j) == k
    decreases k - j
  {
    if j < k {
      SkipWsOver(s, j + 1, k);
    }
  }

  // ---------------------------------------------------------------------
  // The wrappers
  // ---------------------------------------------------------------------

  /** The start every wrapper writes: a define whose first argument is the
      module's ID. */
  function NamedDefineStart(id: string): string
  {
    "define('" + id
  }

  const NON_SHIMMED_STUB_BODY :=
    "', function() {\n    // baler-injected stub for non-AMD module (no shim config was found for this module)\n});\n// Original code for non-AMD module "

  /** The stub that goes before a module with neither `define` nor shim. */
  function NonShimmedStub(id: string): string
  {
    NamedDefineStart(id) + NON_SHIMMED_STUB_BODY + id + "\n"
  }

  /** wrapNonShimmedModule: the stub, then the source as it is. */
  function WrapNonShimmedModule(id: string, source: string): (r: string)
  {
    NonShimmedStub(id) + source
  }

  /** `JSON.stringify(deps)`: a compact array of JSON strings. */
  function JsonCompactArray(items: seq<string>): (text: string)
    ensures |text| >= 2 && text[0] == '[' && text[|text| - 1] == ']'
  {
    "[" + Join(RequireConfig.QuoteAll(items), ",") + "]"
  }

  /** `${shim.exports}`: an absent value prints as "undefined". */
  function ExportsText(shim: Mixins.Shim): string
  {
    if shim.exports.Some? then shim.exports.value else "undefined"
  }

  /** `shim.deps || []` */
  function ShimDeps(shim: Mixins.Shim): seq<string>
  {
    if shim.deps.Some? then shim.deps.value else []
  }

  const SHIMMED_OPENING :=
    ", function() {\n" + "        // Shimmed by @magento/baler\n" + "        (function() {\n" + "            "

  /** What goes before a shimmed module's source: the named define with the
      shim's deps, and the opening of the inner function. */
  function ShimmedHead(id: string, shim: Mixins.Shim): string
  {
    NamedDefineStart(id) + "', " + JsonCompactArray(ShimDeps(shim)) + SHIMMED_OPENING
  }

  /** What goes after it: the call of the inner function and the global the
      shim names, returned as the module's value. */
  function ShimmedTail(shim: Mixins.Shim): string
  {
    SHIMMED_CALL + ExportsText(shim) + SHIMMED_CLOSING
  }

  const SHIMMED_CALL := ";\n        })();\n        return window['"
  const SHIMMED_CLOSING := "'];\n    });"


  const TEXT_OPENING := "', function() {\n    return '"
  const TEXT_CLOSING := "';\n});"

  /** What goes before a text module's escaped source. */
  function TextHead(id: string): string
  {
    NamedDefineStart(id) + TEXT_OPENING
  }

  /** The source follows the stub, whole: it can be read back. */
  lemma NonShimmedKeepsSource(id: string, source: string)
    ensures var r := WrapNonShimmedModule(id, source);
            var h := |NonShimmedStub(id)|;
            h <= |r| && r[..h] == NonShimmedStub(id) && r[h..] == source
  {
  }

  /** A text that starts with `define('` is a named module. */
  lemma NamedPrefix(s: string)
    requires "define('" <= s
    ensures IsNamedAMD(s)
  {
    var p := "define('";
    assert p[..6] == "define" && p[6] == '(' && p[7] == '\'';
    assert s[..6] == p[..6];
    assert s[6] == p[6] && s[7] == p[7];
    assert SkipWs(s, 6) == 6;
    assert SkipWs(s, 7) == 7;
    assert NamedAt(s, 0);
  }

  /** A prefix of a text is a prefix of the text extended. */
  lemma PrefixOfAppended(p: string, s: string, t: string)
    requires p <= s
    ensures p <= s + t
  {
    assert (s + t)[..|p|] == s[..|p|];
  }

  /** Every wrapper produces a named module, so the bundle never meets an
      anonymous define it would have to rename. */
  lemma NonShimmedIsNamed(id: string, source: string)
    ensures IsNamedAMD(WrapNonShimmedModule(id, source))
  {
    var p := "define('";
    PrefixOfAppended(p, p, id);
    PrefixOfAppended(p, NamedDefineStart(id), NON_SHIMMED_STUB_BODY);
    PrefixOfAppended(p, NamedDefineStart(id) + NON_SHIMMED_STUB_BODY, id);
    PrefixOfAppended(p, NamedDefineStart(id) + NON_SHIMMED_STUB_BODY + id, "\n");
    PrefixOfAppended(p, NonShimmedStub(id), source);
    NamedPrefix(WrapNonShimmedModule(id, source));
  }

  // ---------------------------------------------------------------------
  // The 'SPLIT' marker of the two templates
  // ---------------------------------------------------------------------

  /** The marker the shimmed and text templates are cut at. */
  const MARKER := "SPLIT"

  /** The marker starts at `k`. */
  predicate MarkerAt(s: string, k: nat)
  {
    k + 5 <= |s| && s[k] == 'S' && s[k + 1] == 'P' && s[k + 2] == 'L' && s[k + 3] == 'I' && s[k + 4] == 'T'
  }

  predicate MarkerFree(s: string)
  {
    forall k: nat | k + 5 <= |s| :: !MarkerAt(s, k)
  }

  /** The first marker at or after `from`. */
  function FirstMarkerFrom(s: string, from: nat): (r: Option<nat>)
    requires from <= |s|
    ensures r.Some? ==> from <= r.value && MarkerAt(s, r.value)
    ensures r.Some? ==> forall k :: from <= k < r.value ==> !MarkerAt(s, k)
    ensures r.None? ==> forall k: nat :: from <= k ==> !MarkerAt(s, k)
    decreases |s| - from
  {
    if from + 5 > |s| then None
    else if MarkerAt(s, from) then Some(from)
    else FirstMarkerFrom(s, from + 1)
  }

  /** `const [before, after] = t.split('SPLIT')`: the text before the first
      marker, and the text from there to the next marker or to the end. */
  function SplitAtMarker(t: string): (r: (string, string))
    requires FirstMarkerFrom(t, 0).Some?
    ensures r.0 <= t && MarkerFree(r.0) && MarkerAt(t, |r.0|)
    ensures |r.0| + 5 + |r.1| <= |t| && t[|r.0| + 5..|r.0| + 5 + |r.1|] == r.1
    ensures MarkerFree(r.1)
  {
    var i := FirstMarkerFrom(t, 0).value;
    var rest := FirstMarkerFrom(t, i + 5);
    var after := if rest.Some? then t[i + 5..rest.value] else t[i + 5..];
    assert MarkerFree(t[..i]) by {
      forall k: nat | k + 5 <= i ensures !MarkerAt(t[..i], k) {
        assert MarkerAt(t[..i], k) == MarkerAt(t, k);
      }
    }
    assert MarkerFree(after) by {
      forall k: nat | k + 5 <= |after| ensures !MarkerAt(after, k) {
        assert MarkerAt(after, k) == MarkerAt(t, i + 5 + k);
      }
    }
    (t[..i], after)
  }

  /** A text without 'T' holds no marker. */
  lemma NoTMarkerFree(s: string)
    requires 'T' !in s
    ensures MarkerFree(s)
  {
    forall k: nat | k + 5 <= |s| ensures !MarkerAt(s, k) {
      assert s[k + 4] in s;
    }
  }

  /** Where two texts meet, no marker can start in the first and end in the
      second: the first does not end in a letter of "SPLI" that a marker
      could continue, or the second does not start with a letter of "PLIT". */
  predicate Seam(x: string, y: string)
  {
    |x| == 0 || |y| == 0 || x[|x| - 1] !in "SPLI" || y[0] !in "PLIT"
  }

  /** Marker-free texts that meet at a seam make a marker-free text. */
  lemma MarkerFreeAppend(x: string, y: string)
    requires MarkerFree(x) && MarkerFree(y) && Seam(x, y)
    ensures MarkerFree(x + y)
  {
    forall k: nat | k + 5 <= |x + y| ensures !MarkerAt(x + y, k) {
      if k + 5 <= |x| {
        assert MarkerAt(x + y, k) == MarkerAt(x, k);
      } else if k >= |x| {
        assert MarkerAt(x + y, k) == MarkerAt(y, k - |x|);
      } else {
        assert (x + y)[|x| - 1] == x[|x| - 1];
        assert (x + y)[|x|] == y[0];
      }
    }
  }

  /** A marker stays one when text is added after it. */
  lemma MarkerInLeft(x: string, y: string, k: nat)
    requires MarkerAt(x, k)
    ensures MarkerAt(x + y, k)
  {
  }

  /** A marker stays one when text is added before it. */
  lemma MarkerInRight(x: string, y: string, k: nat)
    requires MarkerAt(y, k)
    ensures MarkerAt(x + y, |x| + k)
  {
  }

  /** The marker a template holds where the module's text goes. */
  lemma MarkerBetween(a: string, b: string)
    ensures MarkerAt(a + MARKER + b, |a|)
    ensures FirstMarkerFrom(a + MARKER + b, 0).Some?
  {
    var t := a + MARKER + b;
    assert t[|a|..|a| + 5] == MARKER;
    assert t[|a|] == MARKER[0] && t[|a| + 1] == MARKER[1] && t[|a| + 2] == MARKER[2];
    assert t[|a| + 3] == MARKER[3] && t[|a| + 4] == MARKER[4];
    assert MarkerAt(t, |a|);
  }

  /** A template whose head holds no marker is cut right after the head. */
  lemma FirstMarkerAfterHead(a: string, b: string)
    requires MarkerFree(a)
    ensures FirstMarkerFrom(a + MARKER + b, 0) == Some(|a|)
    ensures SplitAtMarker(a + MARKER + b).0 == a
  {
    var t := a + MARKER + b;
    MarkerBetween(a, b);
    forall k: nat | k < |a| ensures !MarkerAt(t, k) {
      if k + 5 <= |a| {
        assert MarkerAt(t, k) == MarkerAt(a, k);
      } else {
        assert t[|a|] == 'S';
      }
    }
    assert t[..|a|] == a;
  }

  /** Splitting a template whose two halves hold no marker gives the two
      halves back. */
  lemma SplitAtMarkerOf(a: string, b: string)
    requires MarkerFree(a) && MarkerFree(b)
    ensures FirstMarkerFrom(a + MARKER + b, 0).Some?
    ensures SplitAtMarker(a + MARKER + b) == (a, b)
  {
    var t := a + MARKER + b;
    FirstMarkerAfterHead(a, b);
    forall k: nat | |a| + 5 <= k && k + 5 <= |t| ensures !MarkerAt(t, k) {
      assert MarkerAt(t, k) == MarkerAt(b, k - |a| - 5);
    }
    assert FirstMarkerFrom(t, |a| + 5).None?;
    assert t[|a| + 5..] == b;
  }

  /** A marker in the second half cuts the second piece short at or before
      it. */
  lemma SplitAtMarkerCut(a: string, b: string, c: nat)
    requires MarkerFree(a) && MarkerAt(b, c)
    ensures FirstMarkerFrom(a + MARKER + b, 0).Some?
    ensures SplitAtMarker(a + MARKER + b).0 == a
    ensures exists j :: 0 <= j <= c && SplitAtMarker(a + MARKER + b).1 == b[..j]
  {
    var t := a + MARKER + b;
    FirstMarkerAfterHead(a, b);
    MarkerInRight(a + MARKER, b, c);
    var rest := FirstMarkerFrom(t, |a| + 5);
    assert rest.Some? && rest.value <= |a| + 5 + c;
    var j := rest.value - (|a| + 5);
    assert t[|a| + 5..rest.value] == b[..j];
  }

  // ---------------------------------------------------------------------
  // wrapShimmedModule
  // ---------------------------------------------------------------------

  /** The template wrapShimmedModule fills in, with the marker where the
      module's source goes. */
  function ShimmedTemplate(id: string, shim: Mixins.Shim): string
  {
    ShimmedHead(id, shim) + MARKER + ShimmedTail(shim)
  }

  /** wrapShimmedModule: the filled-in template is split at the marker,
      and the source goes between the first two pieces. */
  function WrapShimmedModule(id: string, source: string, shim: Mixins.Shim): string
  {
    MarkerBetween(ShimmedHead(id, shim), ShimmedTail(shim));
    var pieces := SplitAtMarker(ShimmedTemplate(id, shim));
    pieces.0 + source + pieces.1
  }

  /** Whatever the ID, deps and exports, the source sits whole after a
      prefix of the head that keeps the define's opening. */
  lemma ShimmedPieces(id: string, source: string, shim: Mixins.Shim)
    ensures exists before, after ::
              && WrapShimmedModule(id, source, shim) == before + source + after
              && "define('" <= before <= ShimmedHead(id, shim)
  {
    MarkerBetween(ShimmedHead(id, shim), ShimmedTail(shim));
    var pieces := SplitAtMarker(ShimmedTemplate(id, shim));
    ShimmedHeadStart(id, shim);
    TemplatePiece(ShimmedHead(id, shim), ShimmedTail(shim), pieces.0);
    assert WrapShimmedModule(id, source, shim) == pieces.0 + source + pieces.1;
  }

  lemma ShimmedHeadStart(id: string, shim: Mixins.Shim)
    ensures "define('" <= ShimmedHead(id, shim)
  {
    var p := "define('";
    var j := JsonCompactArray(ShimDeps(shim));
    PrefixOfAppended(p, p, id);
    PrefixOfAppended(p, NamedDefineStart(id), "', ");
    PrefixOfAppended(p, NamedDefineStart(id) + "', ", j);
    PrefixOfAppended(p, NamedDefineStart(id) + "', " + j, SHIMMED_OPENING);
  }

  /** The first piece of a template that starts with a named define is a
      prefix of the template's head and keeps the define's opening. */
  lemma TemplatePiece(head: string, rest: string, before: string)
    requires "define('" <= head
    requires FirstMarkerFrom(head + MARKER + rest, 0).Some?
    requires before == SplitAtMarker(head + MARKER + rest).0
    ensures "define('" <= before <= head
  {
    var t := head + MARKER + rest;
    MarkerBetween(head, rest);
    assert |before| <= |head|;
    assert t[..|head|] == head;
    assert t[..8] == "define('" by {
      assert head[..8] == "define('";
    }
    forall k: nat | k < 8 ensures !MarkerAt(t, k) {
      if k < 4 {
        assert t[k + 4] == "define('"[k + 4];
      } else {
        assert t[k] == "define('"[k];
      }
    }
  }

  /** A define's opening holds no marker when the ID holds none. */
  lemma DefineStartMarkerFree(id: string)
    requires MarkerFree(id)
    ensures MarkerFree(NamedDefineStart(id))
  {
    NoTMarkerFree("define('");
    MarkerFreeAppend("define('", id);
  }

  /** With an ID and a deps list free of the marker, the head holds none. */
  lemma ShimmedHeadMarkerFree(id: string, shim: Mixins.Shim)
    requires MarkerFree(id) && MarkerFree(JsonCompactArray(ShimDeps(shim)))
    ensures MarkerFree(ShimmedHead(id, shim))
  {
    var j := JsonCompactArray(ShimDeps(shim));
    DefineStartMarkerFree(id);
    NoTMarkerFree("', ");
    MarkerFreeAppend(NamedDefineStart(id), "', ");
    MarkerFreeAppend(NamedDefineStart(id) + "', ", j);
    OpeningMarkerFree();
    MarkerFreeAppend(NamedDefineStart(id) + "', " + j, SHIMMED_OPENING);
  }

  lemma OpeningMarkerFree()
    ensures MarkerFree(SHIMMED_OPENING) && SHIMMED_OPENING[0] == ','
  {
    NoTMarkerFree(SHIMMED_OPENING);
  }

  /** With an exports name free of the marker, the tail holds none. */
  lemma ShimmedTailMarkerFree(shim: Mixins.Shim)
    requires MarkerFree(ExportsText(shim))
    ensures MarkerFree(ShimmedTail(shim))
  {
    NoTMarkerFree(SHIMMED_CALL);
    NoTMarkerFree(SHIMMED_CLOSING);
    MarkerFreeAppend(SHIMMED_CALL, ExportsText(shim));
    MarkerFreeAppend(SHIMMED_CALL + ExportsText(shim), SHIMMED_CLOSING);
  }

  /** The source sits whole between a head fixed by the ID and shim and a
      tail fixed by the shim, when none of the ID, the deps and the exports
      name holds the marker. */
  lemma ShimmedKeepsSource(id: string, source: string, shim: Mixins.Shim)
    requires MarkerFree(id) && MarkerFree(JsonCompactArray(ShimDeps(shim))) && MarkerFree(ExportsText(shim))
    ensures var r := WrapShimmedModule(id, source, shim);
            var h := |ShimmedHead(id, shim)|;
            && |r| == h + |source| + |ShimmedTail(shim)|
            && r[..h] == ShimmedHead(id, shim)
            && r[h..h + |source|] == source
            && r[h + |source|..] == ShimmedTail(shim)
  {
    ShimmedHeadMarkerFree(id, shim);
    ShimmedTailMarkerFree(shim);
    SplitAtMarkerOf(ShimmedHead(id, shim), ShimmedTail(shim));
    var r := WrapShimmedModule(id, source, shim);
    var h := |ShimmedHead(id, shim)|;
    assert r == ShimmedHead(id, shim) + source + ShimmedTail(shim);
    assert r[h..h + |source|] == source;
  }

  /** An exports name holding the marker cuts the tail short: the module
      then ends before the name is complete, without its closing `});`. */
  lemma ShimmedExportsCutShort(id: string, source: string, shim: Mixins.Shim)
    requires MarkerFree(id) && MarkerFree(JsonCompactArray(ShimDeps(shim))) && !MarkerFree(ExportsText(shim))
    ensures exists j :: 0 <= j < |ShimmedTail(shim)| &&
              WrapShimmedModule(id, source, shim) == ShimmedHead(id, shim) + source + ShimmedTail(shim)[..j]
  {
    var tail := ShimmedTail(shim);
    var e := ExportsText(shim);
    var m: nat :| m + 5 <= |e| && MarkerAt(e, m);
    ShimmedHeadMarkerFree(id, shim);
    MarkerInLeft(e, SHIMMED_CLOSING, m);
    MarkerInRight(SHIMMED_CALL, e + SHIMMED_CLOSING, m);
    assert tail == SHIMMED_CALL + (e + SHIMMED_CLOSING);
    SplitAtMarkerCut(ShimmedHead(id, shim), tail, |SHIMMED_CALL| + m);
  }

  // ---------------------------------------------------------------------
  // wrapTextModule
  // ---------------------------------------------------------------------

  /** MagicString refuses to overwrite an empty range. */
  const ZERO_LENGTH_OVERWRITE := "Cannot overwrite a zero-length range – use appendLeft or prependRight instead"

  /** The template wrapTextModule fills in. */
  function TextTemplate(id: string): string
  {
    TextHead(id) + MARKER + TEXT_CLOSING
  }

  /** MagicString's `overwrite(0, source.length, escaped.slice(0,
      source.length))` followed by `append(escaped.slice(source.length))`:
      the slices are clamped to the escaped text, and together they are the
      escaped text whole. */
  function Overwritten(source: string, escaped: string): (r: string)
    ensures r == escaped
  {
    var cut := if |source| <= |escaped| then |source| else |escaped|;
    assert escaped[..cut] + escaped[cut..] == escaped;
    escaped[..cut] + escaped[cut..]
  }

  /** wrapTextModule, given `escaped` = jsesc(source): the template is split
      at the marker and the escaped text becomes the string the module
      returns. Overwriting the source's whole range fails when the source
      is empty. */
  function WrapTextModule(id: string, source: string, escaped: string): (r: Result<string>)
    ensures r.Err? <==> |source| == 0
    ensures r.Err? ==> r.error == ZERO_LENGTH_OVERWRITE
  {
    MarkerBetween(TextHead(id), TEXT_CLOSING);
    var pieces := SplitAtMarker(TextTemplate(id));
    if |source| == 0 then Err(ZERO_LENGTH_OVERWRITE)
    else Ok(pieces.0 + Overwritten(source, escaped) + pieces.1)
  }

  /** Whatever the ID, a text module holds the escaped text whole after a
      prefix of the head that keeps the define's opening. */
  lemma TextPieces(id: string, source: string, escaped: string)
    requires |source| > 0
    ensures exists before, after ::
              && WrapTextModule(id, source, escaped).value == before + escaped + after
              && "define('" <= before <= TextHead(id)
  {
    MarkerBetween(TextHead(id), TEXT_CLOSING);
    var pieces := SplitAtMarker(TextTemplate(id));
    var p := "define('";
    PrefixOfAppended(p, p, id);
    PrefixOfAppended(p, NamedDefineStart(id), TEXT_OPENING);
    TemplatePiece(TextHead(id), TEXT_CLOSING, pieces.0);
    assert WrapTextModule(id, source, escaped).value == pieces.0 + escaped + pieces.1;
  }

  /** The head and the closing of a text module hold no marker when the
      ID holds none. */
  lemma TextHalvesMarkerFree(id: string)
    requires MarkerFree(id)
    ensures MarkerFree(TextHead(id)) && MarkerFree(TEXT_CLOSING)
  {
    DefineStartMarkerFree(id);
    NoTMarkerFree(TEXT_OPENING);
    NoTMarkerFree(TEXT_CLOSING);
    MarkerFreeAppend(NamedDefineStart(id), TEXT_OPENING);
  }

  /** A text module is written exactly for a non-empty source, and then the
      escaped text sits whole between a head fixed by the ID and the closing
      quote, when the ID holds no marker. */
  lemma TextKeepsSource(id: string, source: string, escaped: string)
    requires MarkerFree(id)
    ensures WrapTextModule(id, source, escaped).Ok? <==> |source| > 0
    ensures var r := WrapTextModule(id, source, escaped);
            var h := |TextHead(id)|;
            r.Ok? ==>
            && |r.value| == h + |escaped| + |TEXT_CLOSING|
            && r.value[..h] == TextHead(id)
            && r.value[h..h + |escaped|] == escaped
            && r.value[h + |escaped|..] == TEXT_CLOSING
  {
    TextHalvesMarkerFree(id);
    SplitAtMarkerOf(TextHead(id), TEXT_CLOSING);
    var r := WrapTextModule(id, source, escaped);
    if r.Ok? {
      var h := |TextHead(id)|;
      assert r.value == TextHead(id) + escaped + TEXT_CLOSING;
      assert r.value[h..h + |escaped|] == escaped;
    }
  }

  lemma ShimmedIsNamed(id: string, source: string, shim: Mixins.Shim)
    ensures IsNamedAMD(WrapShimmedModule(id, source, shim))
  {
    var r := WrapShimmedModule(id, source, shim);
    ShimmedPieces(id, source, shim);
    var before, after :| r == before + source + after && "define('" <= before;
    PrefixOfAppended("define('", before, source);
    PrefixOfAppended("define('", before + source, after);
    NamedPrefix(r);
  }

  /** A text module is written exactly for a non-empty source, and it is
      then a named module. */
  lemma TextIsNamed(id: string, source: string, escaped: string)
    ensures WrapTextModule(id, source, escaped).Ok? <==> |source| > 0
    ensures WrapTextModule(id, source, escaped).Ok? ==> IsNamedAMD(WrapTextModule(id, source, escaped).value)
  {
    var r := WrapTextModule(id, source, escaped);
    if r.Ok? {
      TextPieces(id, source, escaped);
      var before, after :| r.value == before + escaped + after && "define('" <= before;
      PrefixOfAppended("define('", before, escaped);
      PrefixOfAppended("define('", before + escaped, after);
      NamedPrefix(r.value);
    }
  }

  /** A shim with neither deps nor exports gives the deps array `[]` and
      the global `window['undefined']`, around the whole source when the
      ID holds no marker. */
  lemma ShimWithoutDepsOrExports(id: string, source: string)
    requires MarkerFree(id)
    ensures JsonCompactArray(ShimDeps(Mixins.Shim(None, None))) == "[]"
    ensures ExportsText(Mixins.Shim(None, None)) == "undefined"
    ensures WrapShimmedModule(id, source, Mixins.Shim(None, None))
         == NamedDefineStart(id) + "', " + "[]" + SHIMMED_OPENING + source + SHIMMED_CALL + "undefined" + SHIMMED_CLOSING
  {
    assert RequireConfig.QuoteAll([]) == [];
    assert Join([], ",") == "";
    NoTMarkerFree("[]");
    NoTMarkerFree("undefined");
    var shim := Mixins.Shim(None, None);
    ShimmedHeadMarkerFree(id, shim);
    ShimmedTailMarkerFree(shim);
    SplitAtMarkerOf(ShimmedHead(id, shim), ShimmedTail(shim));
  }

  /** A shim's deps are written as a compact JSON array:
      `{deps: ['log']}` gives `["log"]`. */
  lemma ShimDepsExample()
    ensures JsonCompactArray(ShimDeps(Mixins.Shim(Some(["log"]), None))) == "[\"log\"]"
  {
    assert RequireConfig.PlainJsonText("log");
    RequireConfig.PlainTextQuotedAsIs("log");
    assert "\"" + "log" + "\"" == "\"log\"";
    assert RequireConfig.QuoteAll(["log"]) == [RequireConfig.JsonQuote("log")];
    assert Join(["\"log\""], ",") == "\"log\"";
  }
}
