/** The few JavaScript string builtins the substitution engine relies on:
    `String.prototype.trim`, `indexOf`, `replace` with a string pattern, and
    `Array.prototype.join`. */
module Strings {
  import opened Wrappers

  /** The characters ECMAScript's `trim` strips: WhiteSpace (tab, vertical
      tab, form feed, space, no-break space, byte order mark and the other
      space separators) and LineTerminator (line feed, carriage return, line
      and paragraph separators). */
  predicate IsWhitespace(c: char) {
    || c == '\t' || c == '\n' || c == '\U{B}' || c == '\U{C}' || c == '\r'
    || c == ' ' || c == '\U{A0}' || c == '\U{1680}'
    || ('\U{2000}' <= c <= '\U{200A}')
    || c == '\U{2028}' || c == '\U{2029}' || c == '\U{202F}' || c == '\U{205F}'
    || c == '\U{3000}' || c == '\U{FEFF}'
  }

  /** No whitespace at either end. */
  predicate IsTrimmed(s: string) {
    |s| == 0 || (!IsWhitespace(s[0]) && !IsWhitespace(s[|s| - 1]))
  }

  /** Drops the leading whitespace of `s`. */
  function TrimStart(s: string): (r: string)
    ensures |r| <= |s| && r == s[|s| - |r|..]
    ensures forall i :: 0 <= i < |s| - |r| ==> IsWhitespace(s[i])
    ensures |r| == 0 || !IsWhitespace(r[0])
  {
    if |s| > 0 && IsWhitespace(s[0]) then TrimStart(s[1..]) else s
  }

  /** Drops the trailing whitespace of `s`. */
  function TrimEnd(s: string): (r: string)
    ensures |r| <= |s| && r == s[..|r|]
    ensures forall i :: |r| <= i < |s| ==> IsWhitespace(s[i])
    ensures |r| == 0 || !IsWhitespace(r[|r| - 1])
  {
    if |s| > 0 && IsWhitespace(s[|s| - 1]) then TrimEnd(s[..|s| - 1]) else s
  }

  /** `String.prototype.trim`: the result has no whitespace at either end and
      a string that already has none is returned as it is. */
  function Trim(s: string): (r: string)
    ensures IsTrimmed(r)
    ensures IsTrimmed(s) ==> r == s
    ensures |r| <= |s|
  {
    var t := TrimStart(s);
    assert |t| > 0 ==> TrimEnd(t)[0] == t[0];
    TrimEnd(t)
  }

  /** `trim` removes only leading and trailing whitespace: the result is a
      slice of the input with nothing but whitespace around it. */
  lemma TrimIsSpan(s: string)
    ensures exists a: nat, b: nat :: Span(s, Trim(s), a, b)
  {
    var t := TrimStart(s);
    var e := TrimEnd(t);
    SpanOfTrims(s, t, e);
    assert Trim(s) == e;
    assert Span(s, Trim(s), |s| - |t|, |s| - |t| + |e|);
  }

  /** `r` is `s[a..b]`, and everything of `s` outside that slice is
      whitespace. */
  predicate Span(s: string, r: string, a: nat, b: nat) {
    && a <= b <= |s| && r == s[a..b]
    && (forall i :: 0 <= i < a ==> IsWhitespace(s[i]))
    && (forall i :: b <= i < |s| ==> IsWhitespace(s[i]))
  }

  /** Dropping whitespace from the front of `s` (giving `t`) and then from
      the back of `t` (giving `e`) cuts a slice out of `s` with only
      whitespace around it. */
  lemma SpanOfTrims(s: string, t: string, e: string)
    requires |t| <= |s| && t == s[|s| - |t|..]
    requires forall i :: 0 <= i < |s| - |t| ==> IsWhitespace(s[i])
    requires |e| <= |t| && e == t[..|e|]
    requires forall i :: |e| <= i < |t| ==> IsWhitespace(t[i])
    ensures Span(s, e, |s| - |t|, |s| - |t| + |e|)
  {
    var a := |s| - |t|;
    assert forall i :: 0 <= i < |e| ==> e[i] == t[i] == s[a + i];
    forall i | a + |e| <= i < |s|
      ensures IsWhitespace(s[i])
    {
      assert s[i] == t[i - a];
    }
  }

  /** `Array.prototype.join`: the parts with `sep` between neighbours. */
  function Join(parts: seq<string>, sep: string): string {
    if |parts| == 0 then ""
    else if |parts| == 1 then parts[0]
    else parts[0] + sep + Join(parts[1..], sep)
  }

  /** `p` occurs in `s` starting at index `j`. */
  predicate OccursAt(s: string, p: string, j: nat) {
    j + |p| <= |s| && s[j..j + |p|] == p
  }

  /** `String.prototype.indexOf`: the first index where `p` occurs in `s`,
      `None` standing for -1. The empty pattern occurs at index 0. */
  function IndexOf(s: string, p: string): (r: Option<nat>)
    ensures r.Some? ==> OccursAt(s, p, r.value)
    ensures r.Some? ==> forall j: nat :: j < r.value ==> !OccursAt(s, p, j)
    ensures r.None? ==> forall j: nat :: !OccursAt(s, p, j)
    decreases |s|
  {
    if |s| < |p| then None
    else if s[..|p|] == p then Some(0)
    else
      var rest := IndexOf(s[1..], p);
      assert !OccursAt(s, p, 0);
      match rest
      case None =>
        assert forall j: nat :: !OccursAt(s, p, j) by {
          forall j: nat | 0 < j
            ensures !OccursAt(s, p, j)
          {
            ShiftOccurrence(s, p, j - 1);
          }
        }
        None
      case Some(i) =>
        assert forall j: nat :: j < i + 1 ==> !OccursAt(s, p, j) by {
          forall j: nat | 0 < j < i + 1
            ensures !OccursAt(s, p, j)
          {
            ShiftOccurrence(s, p, j - 1);
          }
        }
        ShiftOccurrence(s, p, i);
        Some(i + 1)
  }

  /** An occurrence in `s[1..]` is an occurrence in `s`, one index later. */
  lemma ShiftOccurrence(s: string, p: string, j: nat)
    requires |s| > 0
    ensures OccursAt(s[1..], p, j) <==> OccursAt(s, p, j + 1)
  {
    if j + 1 + |p| <= |s| {
      assert s[1..][j..j + |p|] == s[j + 1..j + 1 + |p|];
    }
  }

  /** `s.indexOf(p) > -1`. */
  predicate Contains(s: string, p: string) {
    IndexOf(s, p).Some?
  }

  /** `s.replace(p, v)` with a string pattern: the first occurrence of `p`
      becomes `v`; without one, `s` comes back unchanged. */
  function ReplaceFirst(s: string, p: string, v: string): (r: string)
    ensures !Contains(s, p) ==> r == s
    ensures Contains(s, p) ==>
      var i := IndexOf(s, p).value;
      && |r| == |s| - |p| + |v|
      && r[..i] == s[..i]
      && r[i..i + |v|] == v
      && r[i + |v|..] == s[i + |p|..]
  {
    match IndexOf(s, p)
    case None => s
    case Some(i) => s[..i] + v + s[i + |p|..]
  }
}
