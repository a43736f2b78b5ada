/** String helpers with the semantics of the JavaScript built-ins the source
    uses: `String.prototype.split` on one character, `Array.prototype.join`,
    `String.prototype.trim`, `includes` and number-to-string conversion. */
module Strings {

  /** `sub` occurs in `s` starting at index `i`. */
  predicate OccursAt(s: string, sub: string, i: nat)
  {
    i + |sub| <= |s| && s[i..i + |sub|] == sub
  }

  /** `s.includes(sub)` */
  predicate Contains(s: string, sub: string)
  {
    exists i: nat | i <= |s| :: OccursAt(s, sub, i)
  }

  /** `s.endsWith(suffix)` */
  predicate EndsWith(s: string, suffix: string)
  {
    |suffix| <= |s| && s[|s| - |suffix|..] == suffix
  }

  /** A string ends with what was appended to it. */
  lemma EndsWithAppend(head: string, tail: string)
    ensures EndsWith(head + tail, tail)
  {
    assert (head + tail)[|head|..] == tail;
  }

  /** A suffix of a suffix is a suffix. */
  lemma EndsWithTransitive(s: string, t: string, u: string)
    requires EndsWith(s, t) && EndsWith(t, u)
    ensures EndsWith(s, u)
  {
    assert s[|s| - |u|..] == s[|s| - |t|..][|t| - |u|..];
  }

  /** `s.split(c)` for a one-character separator: the pieces between
      separators, always at least one (the empty string gives [""]). */
  function Split(s: string, c: char): (parts: seq<string>)
    ensures |parts| >= 1
    decreases |s|
  {
    if |s| == 0 then [""]
    else
      var rest := Split(s[1..], c);
      if s[0] == c then [""] + rest
      else [[s[0]] + rest[0]] + rest[1..]
  }

  /** `parts.join(sep)` */
  function Join(parts: seq<string>, sep: string): string
  {
    if |parts| == 0 then ""
    else if |parts| == 1 then parts[0]
    else parts[0] + sep + Join(parts[1..], sep)
  }

  /** No piece of a split contains the separator. */
  lemma {:induction false} SplitPiecesFree(s: string, c: char)
    ensures forall i :: 0 <= i < |Split(s, c)| ==> c !in Split(s, c)[i]
    decreases |s|
  {
    if |s| > 0 {
      SplitPiecesFree(s[1..], c);
      var rest := Split(s[1..], c);
      if s[0] != c {
        assert Split(s, c) == [[s[0]] + rest[0]] + rest[1..];
        forall i | 0 <= i < |Split(s, c)| ensures c !in Split(s, c)[i] {
          if i > 0 {
            assert Split(s, c)[i] == rest[i];
          }
        }
      }
    }
  }

  /** Joining the pieces of a split with the separator gives the input back. */
  lemma {:induction false} JoinSplit(s: string, c: char)
    ensures Join(Split(s, c), [c]) == s
    decreases |s|
  {
    if |s| > 0 {
      JoinSplit(s[1..], c);
      var rest := Split(s[1..], c);
      if s[0] == c {
        assert Split(s, c) == [""] + rest;
        assert Join(Split(s, c), [c]) == "" + [c] + Join(rest, [c]);
        assert s == [s[0]] + s[1..];
      } else {
        var p := [[s[0]] + rest[0]] + rest[1..];
        assert Split(s, c) == p;
        if |rest| == 1 {
          assert Join(p, [c]) == [s[0]] + rest[0];
          assert Join(rest, [c]) == rest[0];
        } else {
          assert p[1..] == rest[1..];
          assert Join(p, [c]) == [s[0]] + rest[0] + [c] + Join(rest[1..], [c]);
          assert Join(rest, [c]) == rest[0] + [c] + Join(rest[1..], [c]);
        }
        assert s == [s[0]] + s[1..];
      }
    }
  }

  /** A string without the separator splits into itself alone. */
  lemma {:induction false} SplitWithoutSeparator(s: string, c: char)
    requires c !in s
    ensures Split(s, c) == [s]
    decreases |s|
  {
    if |s| > 0 {
      SplitWithoutSeparator(s[1..], c);
      assert [s[0]] + s[1..] == s;
    }
  }

  /** A split has more than one piece exactly when the separator occurs. */
  lemma {:induction false} SplitPieces(s: string, c: char)
    ensures c in s <==> |Split(s, c)| >= 2
    decreases |s|
  {
    if |s| > 0 {
      SplitPieces(s[1..], c);
      assert s == [s[0]] + s[1..];
    }
  }

  /** Splitting at the first separator: the first piece is the text before it
      and the rest is the split of the text after it. */
  lemma {:induction false} SplitAtFirst(a: string, c: char, b: string)
    requires c !in a
    ensures Split(a + [c] + b, c) == [a] + Split(b, c)
    decreases |a|
  {
    if |a| == 0 {
      assert a + [c] + b == [c] + b;
      assert (a + [c] + b)[1..] == b;
    } else {
      SplitAtFirst(a[1..], c, b);
      var s := a + [c] + b;
      assert s[0] == a[0];
      assert s[1..] == a[1..] + [c] + b;
      var rest := Split(s[1..], c);
      assert rest == [a[1..]] + Split(b, c);
      assert [a[0]] + a[1..] == a;
    }
  }

  /** Splitting a join at a separator that occurs in none of the parts gives
      the parts back. */
  lemma {:induction false} SplitJoin(parts: seq<string>, c: char)
    requires |parts| >= 1
    requires forall i :: 0 <= i < |parts| ==> c !in parts[i]
    ensures Split(Join(parts, [c]), c) == parts
    decreases |parts|
  {
    if |parts| == 1 {
      SplitWithoutSeparator(parts[0], c);
    } else {
      SplitJoin(parts[1..], c);
      SplitAtFirst(parts[0], c, Join(parts[1..], [c]));
      assert parts == [parts[0]] + parts[1..];
    }
  }

  /** The characters that JavaScript's `\s` and `trim` treat as white space
      (WhiteSpace and LineTerminator of the ECMAScript grammar). */
  predicate IsJsWhitespace(c: char)
  {
    c == ' ' || c == '\t' || c == '\n' || c == '\r' || c == '\U{000B}' || c == '\U{000C}'
    || c == '\U{00A0}' || c == '\U{1680}' || ('\U{2000}' <= c <= '\U{200A}')
    || c == '\U{2028}' || c == '\U{2029}' || c == '\U{202F}' || c == '\U{205F}'
    || c == '\U{3000}' || c == '\U{FEFF}'
  }

  /** Drops leading white space (`/^\s*` consumes exactly this). */
  function TrimStart(s: string): (r: string)
    ensures EndsWith(s, r)
    ensures |r| > 0 ==> !IsJsWhitespace(r[0])
    ensures forall i :: 0 <= i < |s| - |r| ==> IsJsWhitespace(s[i])
  {
    if |s| > 0 && IsJsWhitespace(s[0]) then TrimStart(s[1..]) else s
  }

  /** Drops trailing white space. */
  function TrimEnd(s: string): (r: string)
    ensures r <= s
    ensures |r| > 0 ==> !IsJsWhitespace(r[|r| - 1])
    ensures forall i :: |r| <= i < |s| ==> IsJsWhitespace(s[i])
  {
    if |s| > 0 && IsJsWhitespace(s[|s| - 1]) then TrimEnd(s[..|s| - 1]) else s
  }

  /** `s.trim()` */
  function Trim(s: string): string
  {
    TrimEnd(TrimStart(s))
  }

  function DigitChar(d: nat): char
    requires d < 10
  {
    ['0', '1', '2', '3', '4', '5', '6', '7', '8', '9'][d]
  }

  /** Decimal text of a natural number, as a template literal prints it. */
  function NatToString(n: nat): (s: string)
    ensures |s| >= 1
    ensures forall i :: 0 <= i < |s| ==> '0' <= s[i] <= '9'
  {
    if n < 10 then [DigitChar(n)] else NatToString(n / 10) + [DigitChar(n % 10)]
  }

  /** Elements of `xs` without repetition. */
  predicate NoDuplicates<T(==)>(xs: seq<T>)
  {
    forall i, j :: 0 <= i < j < |xs| ==> xs[i] != xs[j]
  }

  /** What a missing element of a destructured array prints as in a
      template literal. */
  const UNDEFINED := "undefined"

  /** Element `i` of a split, or `undefined` past its end. */
  function SegmentOr(parts: seq<string>, i: nat): string
  {
    if i < |parts| then parts[i] else UNDEFINED
  }
}
