/** The two functions of node's `path` module (POSIX flavour) that the core
    uses: `join` and `extname`. */
module Paths {
  import opened Strings

  /** `path.join(a, b)`: the two parts with one '/' between them; an empty
      part is dropped. Node's normalisation of '.', '..' and repeated
      separators is not modelled. */
  function Join(a: string, b: string): (r: string)
    ensures a <= r
    ensures EndsWith(r, b)
  {
    if a == "" then b
    else if b == "" then a
    else a + "/" + b
  }

  /** Text appended to a non-empty second part stays at the end. */
  lemma JoinAppend(a: string, b: string, t: string)
    requires b != ""
    ensures Join(a, b) + t == Join(a, b + t)
  {
    if a != "" {
      assert a + "/" + b + t == a + "/" + (b + t);
    }
  }

  /** Index of the last `c` in `s`, or -1. */
  function LastIndexOf(s: string, c: char): (i: int)
    ensures -1 <= i < |s|
    ensures i >= 0 ==> s[i] == c && c !in s[i + 1..]
    ensures i == -1 ==> c !in s
  {
    if |s| == 0 then -1
    else if s[|s| - 1] == c then |s| - 1
    else LastIndexOf(s[..|s| - 1], c)
  }

  /** The path without its trailing separators. */
  function StripTrailingSlashes(p: string): (r: string)
    ensures r <= p
    ensures |r| > 0 ==> r[|r| - 1] != '/'
  {
    if |p| > 0 && p[|p| - 1] == '/' then StripTrailingSlashes(p[..|p| - 1]) else p
  }

  /** The last segment of an already stripped path. */
  function LastSegment(p: string): (b: string)
    ensures EndsWith(p, b)
    ensures '/' !in b
  {
    p[LastIndexOf(p, '/') + 1..]
  }

  /** `path.extname(p)`: from the last '.' of the last segment to its end;
      empty when that segment has no '.', starts with its only leading '.'
      run before the extension (".bashrc"), or is "..". */
  function Extname(p: string): (e: string)
    ensures e == "" || (e[0] == '.' && '/' !in e)
  {
    var b := LastSegment(StripTrailingSlashes(p));
    var dot := LastIndexOf(b, '.');
    if b == ".." || dot <= 0 then "" else b[dot..]
  }

  /** For a path that does not end in '/', its extension is a suffix of it. */
  lemma ExtnameIsSuffix(p: string)
    requires |p| > 0 && p[|p| - 1] != '/'
    ensures EndsWith(p, Extname(p))
  {
    assert StripTrailingSlashes(p) == p;
    var b := LastSegment(p);
    var dot := LastIndexOf(b, '.');
    if !(b == ".." || dot <= 0) {
      assert b == b[..dot] + b[dot..];
      EndsWithAppend(b[..dot], b[dot..]);
      EndsWithTransitive(p, b, b[dot..]);
    }
  }

  /** Appending ".js" to a path whose last segment is not empty gives it the
      extension ".js". */
  lemma ExtnameOfAppendedJs(p: string)
    requires |p| > 0 && p[|p| - 1] != '/'
    ensures Extname(p + ".js") == ".js"
  {
    assert ".js" == "." + "js";
    ExtnameOfAppended(p, "js");
  }

  /** Appending "." and a word free of '.' and '/' to a path whose last
      segment is not empty gives it that extension. */
  lemma ExtnameOfAppended(p: string, word: string)
    requires |p| > 0 && p[|p| - 1] != '/'
    requires |word| > 0 && '.' !in word && '/' !in word
    ensures Extname(p + ("." + word)) == "." + word
  {
    var e := "." + word;
    var q := p + e;
    assert q[|q| - 1] == word[|word| - 1];
    assert StripTrailingSlashes(q) == q;
    LastSegmentAppend(p, e);
    var seg := LastSegment(p);
    assert |seg| > 0;
    LastDotOfAppended(seg, word);
  }

  /** A tail free of '/' stays in the last segment. */
  lemma LastSegmentAppend(p: string, t: string)
    requires '/' !in t
    ensures LastSegment(p + t) == LastSegment(p) + t
  {
    var k := LastIndexOf(p, '/');
    LastIndexOfAppend(p, t, '/');
    assert (p + t)[k + 1..] == p[k + 1..] + t;
  }

  /** The last '.' of `seg + "." + word` is the one put before `word`. */
  lemma LastDotOfAppended(seg: string, word: string)
    requires '.' !in word
    ensures LastIndexOf(seg + ("." + word), '.') == |seg|
  {
    var e := "." + word;
    LastIndexOfAppend(seg, e, '.');
    var i := LastIndexOf(e, '.');
    assert e[1..] == word;
    assert i == 0;
  }

  /** The last `c` of `a + t` lies in `t` when `t` holds one. */
  lemma LastIndexOfAppend(a: string, t: string, c: char)
    ensures c !in t ==> LastIndexOf(a + t, c) == LastIndexOf(a, c)
    ensures c in t ==> LastIndexOf(a + t, c) == |a| + LastIndexOf(t, c)
  {
    if c in t {
      LastIndexOfAppendHit(a, t, c);
    } else {
      LastIndexOfAppendMiss(a, t, c);
    }
  }

  /** A tail without `c` leaves the last `c` where it was. */
  lemma {:induction false} LastIndexOfAppendMiss(a: string, t: string, c: char)
    requires c !in t
    ensures LastIndexOf(a + t, c) == LastIndexOf(a, c)
    decreases |t|
  {
    if |t| > 0 {
      var s := a + t;
      assert s[..|s| - 1] == a + t[..|t| - 1];
      assert s[|s| - 1] == t[|t| - 1];
      LastIndexOfAppendMiss(a, t[..|t| - 1], c);
    } else {
      assert a + t == a;
    }
  }

  /** A tail with a `c` holds the last one. */
  lemma {:induction false} LastIndexOfAppendHit(a: string, t: string, c: char)
    requires c in t
    ensures LastIndexOf(a + t, c) == |a| + LastIndexOf(t, c)
    decreases |t|
  {
    var s := a + t;
    assert s[..|s| - 1] == a + t[..|t| - 1];
    assert s[|s| - 1] == t[|t| - 1];
    if t[|t| - 1] != c {
      assert t == t[..|t| - 1] + [t[|t| - 1]];
      LastIndexOfAppendHit(a, t[..|t| - 1], c);
    }
  }
}
