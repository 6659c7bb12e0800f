/** The compound-cell segmenter `splitString` of app/utils/excel.ts: it splits
    a cell on a comma that is directly followed by a space, except while a
    single "inside parentheses" flag is set, and trims every piece. */
module Segmenter {
  import opened Wrappers
  import opened Strings

  /** The delimiter the segmenter drops and `replaceExcel` re-inserts. */
  const Separator: string := ", "

  /** The parentheses flag after reading `c`: `(` sets it, `)` clears it and
      every other character leaves it alone. It is a flag, not a depth. */
  function NextFlag(c: char, inParens: bool): bool {
    if c == '(' then true else if c == ')' then false else inParens
  }

  /** The scanner from index `i` on, with `inParens` the flag so far and
      `cur` the current piece; returns the untrimmed pieces still to come,
      the current one first. A recognised delimiter is dropped together with
      the space after it. */
  function Scan(s: string, i: nat, inParens: bool, cur: string): (r: seq<string>)
    requires i <= |s|
    ensures |r| >= 1
    decreases |s| - i
  {
    if i == |s| then [cur]
    else
      var f := NextFlag(s[i], inParens);
      if s[i] == ',' && !f && i + 1 < |s| && s[i + 1] == ' ' then
        [cur] + Scan(s, i + 2, f, "")
      else
        Scan(s, i + 1, f, cur + [s[i]])
  }

  /** The pieces of `s` before trimming. */
  function RawSegments(s: string): seq<string> {
    Scan(s, 0, false, "")
  }

  function TrimAll(xs: seq<string>): (r: seq<string>)
    ensures |r| == |xs|
    ensures forall k :: 0 <= k < |r| ==> r[k] == Trim(xs[k])
  {
    seq(|xs|, k requires 0 <= k < |xs| => Trim(xs[k]))
  }

  /** `splitString(s)` as a function: never empty, every piece trimmed. */
  function Segments(s: string): (r: seq<string>)
    ensures |r| >= 1
    ensures forall k :: 0 <= k < |r| ==> IsTrimmed(r[k]) && Trim(r[k]) == r[k]
  {
    TrimAll(RawSegments(s))
  }

  /** `splitString` as the source writes it: a left-to-right loop over the
      characters that pushes the trimmed current word at each delimiter and
      once more at the end. */
  method SplitString(str: string) returns (result: seq<string>)
    ensures result == Segments(str)
    ensures |result| >= 1
    ensures forall k :: 0 <= k < |result| ==> Trim(result[k]) == result[k]
  {
    result := [];
    var currentWord := "";
    var isInParentheses := false;
    ghost var done: seq<string> := [];
    var i := 0;
    while i < |str|
      invariant i <= |str|
      invariant result == TrimAll(done)
      invariant done + Scan(str, i, isInParentheses, currentWord) == RawSegments(str)
      decreases |str| - i
    {
      var c := str[i];
      ghost var before := isInParentheses;
      if c == '(' {
        isInParentheses := true;
      } else if c == ')' {
        isInParentheses := false;
      }
      assert isInParentheses == NextFlag(c, before);
      if c == ',' && !isInParentheses && i + 1 < |str| && str[i + 1] == ' ' {
        assert Scan(str, i, before, currentWord)
          == [currentWord] + Scan(str, i + 2, isInParentheses, "");
        TrimAllSnoc(done, currentWord);
        done := done + [currentWord];
        result := result + [Trim(currentWord)];
        currentWord := "";
        i := i + 1; // the space after the comma is skipped
      } else {
        assert Scan(str, i, before, currentWord)
          == Scan(str, i + 1, isInParentheses, currentWord + [c]);
        currentWord := currentWord + [c];
      }
      i := i + 1;
    }
    TrimAllSnoc(done, currentWord);
    result := result + [Trim(currentWord)];
  }

  lemma TrimAllSnoc(xs: seq<string>, x: string)
    ensures TrimAll(xs + [x]) == TrimAll(xs) + [Trim(x)]
  {
  }

  // ---------------------------------------------------------------------
  // Reconstruction: only the delimiters are dropped.

  /** Joining the untrimmed pieces of the scan with ", " gives back the current
      piece followed by the rest of the input. */
  lemma {:induction false} ScanJoin(s: string, i: nat, inParens: bool, cur: string)
    requires i <= |s|
    ensures Join(Scan(s, i, inParens, cur), Separator) == cur + s[i..]
    decreases |s| - i
  {
    if i < |s| {
      var f := NextFlag(s[i], inParens);
      if s[i] == ',' && !f && i + 1 < |s| && s[i + 1] == ' ' {
        var rest := Scan(s, i + 2, f, "");
        ScanJoin(s, i + 2, f, "");
        assert ([cur] + rest)[1..] == rest;
        assert s[i..] == Separator + s[i + 2..];
      } else {
        ScanJoin(s, i + 1, f, cur + [s[i]]);
        assert s[i..] == [s[i]] + s[i + 1..];
      }
    }
  }

  /** Before trimming, joining the pieces with ", " reproduces the input. */
  lemma JoinRawSegments(s: string)
    ensures Join(RawSegments(s), Separator) == s
    ensures Segments(s) == TrimAll(RawSegments(s))
  {
    ScanJoin(s, 0, false, "");
  }

  // ---------------------------------------------------------------------
  // Where the scanner splits.

  /** The parentheses flag after reading all of `p`, starting cleared. */
  function Flag(p: string): bool {
    if |p| == 0 then false else NextFlag(p[|p| - 1], Flag(p[..|p| - 1]))
  }

  /** Index `j` is a split point: a comma followed by a space, read while the
      flag is cleared (the flag already accounts for `s[j]` itself). */
  predicate SplitPoint(s: string, j: nat) {
    j + 1 < |s| && s[j] == ',' && s[j + 1] == ' ' && !Flag(s[..j + 1])
  }

  /** The number of split points at index `i` or later. */
  function SplitCount(s: string, i: nat): nat
    decreases |s| - i
  {
    if i >= |s| then 0
    else (if SplitPoint(s, i) then 1 else 0) + SplitCount(s, i + 1)
  }

  lemma FlagStep(s: string, i: nat)
    requires i < |s|
    ensures Flag(s[..i + 1]) == NextFlag(s[i], Flag(s[..i]))
  {
    assert s[..i + 1][..i] == s[..i];
  }

  /** Started with the right flag, the scan yields one piece more than there
      are split points ahead. */
  lemma {:induction false} ScanCount(s: string, i: nat, cur: string)
    requires i <= |s|
    ensures |Scan(s, i, Flag(s[..i]), cur)| == 1 + SplitCount(s, i)
    decreases |s| - i
  {
    if i < |s| {
      FlagStep(s, i);
      var f := NextFlag(s[i], Flag(s[..i]));
      if s[i] == ',' && !f && i + 1 < |s| && s[i + 1] == ' ' {
        FlagStep(s, i + 1);
        assert !SplitPoint(s, i + 1);
        ScanCount(s, i + 2, "");
      } else {
        ScanCount(s, i + 1, cur + [s[i]]);
      }
    }
  }

  /** The number of segments is one more than the number of split points. */
  lemma SegmentCount(s: string)
    ensures |Segments(s)| == 1 + SplitCount(s, 0)
  {
    ScanCount(s, 0, "");
    assert s[..0] == "";
  }

  /** Joining a list with a known first part. */
  lemma JoinCons(x: string, ys: seq<string>, sep: string)
    requires |ys| > 0
    ensures Join([x] + ys, sep) == x + sep + Join(ys, sep)
  {
    assert ([x] + ys)[1..] == ys;
  }

  /** Where the scan cuts: the end of the first `k + 1` pieces, counted from
      `start`, where the current piece began. */
  function CutAt(start: nat, r: seq<string>, k: nat): nat
    requires k < |r|
  {
    start + |Join(r[..k + 1], Separator)|
  }

  /** Every cut after one of the pieces `r` but the last, the pieces laid
      out from `start`, is a split point of `s`. */
  predicate CutsSplit(s: string, start: nat, r: seq<string>) {
    forall k :: 0 <= k < |r| - 1 ==> SplitPoint(s, CutAt(start, r, k))
  }

  /** Every split point of `s` from index `from` on is the cut after one of
      the pieces `r` but the last, the pieces laid out from `start`. */
  predicate SplitsCut(s: string, from: nat, start: nat, r: seq<string>) {
    forall j :: from <= j < |s| && SplitPoint(s, j) ==>
      exists k :: 0 <= k < |r| - 1 && CutAt(start, r, k) == j
  }

  /** Every cut the scan makes, after a piece that is not the last, is a
      split point of `s`. */
  lemma {:induction false} ScanCutsAreSplitPoints(s: string, i: nat, start: nat, cur: string)
    requires i <= |s| && start + |cur| == i
    ensures CutsSplit(s, start, Scan(s, i, Flag(s[..i]), cur))
    decreases |s| - i
  {
    if i < |s| {
      FlagStep(s, i);
      var f := NextFlag(s[i], Flag(s[..i]));
      var r := Scan(s, i, Flag(s[..i]), cur);
      if s[i] == ',' && !f && i + 1 < |s| && s[i + 1] == ' ' {
        FlagStep(s, i + 1);
        var r' := Scan(s, i + 2, Flag(s[..i + 2]), "");
        ScanCutsAreSplitPoints(s, i + 2, i + 2, "");
        assert r == [cur] + r';
        forall k | 0 <= k < |r| - 1
          ensures SplitPoint(s, CutAt(start, r, k))
        {
          if k == 0 {
            assert r[..1] == [cur];
          } else {
            assert r[..k + 1] == [cur] + r'[..k];
            JoinCons(cur, r'[..k], Separator);
            assert CutAt(start, r, k) == CutAt(i + 2, r', k - 1);
          }
        }
      } else {
        assert r == Scan(s, i + 1, Flag(s[..i + 1]), cur + [s[i]]);
        ScanCutsAreSplitPoints(s, i + 1, start, cur + [s[i]]);
      }
    }
  }

  /** Every split point of `s` at or after `i` is one of the scan's cuts. */
  lemma {:induction false} SplitPointsAreScanCuts(s: string, i: nat, start: nat, cur: string)
    requires i <= |s| && start + |cur| == i
    ensures SplitsCut(s, i, start, Scan(s, i, Flag(s[..i]), cur))
    decreases |s| - i
  {
    if i < |s| {
      FlagStep(s, i);
      var f := NextFlag(s[i], Flag(s[..i]));
      var r := Scan(s, i, Flag(s[..i]), cur);
      if s[i] == ',' && !f && i + 1 < |s| && s[i + 1] == ' ' {
        FlagStep(s, i + 1);
        var r' := Scan(s, i + 2, Flag(s[..i + 2]), "");
        SplitPointsAreScanCuts(s, i + 2, i + 2, "");
        assert r == [cur] + r';
        forall j | i <= j < |s| && SplitPoint(s, j)
          ensures exists k :: 0 <= k < |r| - 1 && CutAt(start, r, k) == j
        {
          if j == i {
            assert r[..1] == [cur];
            assert CutAt(start, r, 0) == j;
          } else {
            assert j != i + 1;
            var k' :| 0 <= k' < |r'| - 1 && CutAt(i + 2, r', k') == j;
            assert r[..k' + 2] == [cur] + r'[..k' + 1];
            JoinCons(cur, r'[..k' + 1], Separator);
            assert CutAt(start, r, k' + 1) == j;
          }
        }
      } else {
        assert r == Scan(s, i + 1, Flag(s[..i + 1]), cur + [s[i]]);
        SplitPointsAreScanCuts(s, i + 1, start, cur + [s[i]]);
        assert !SplitPoint(s, i);
      }
    }
  }

  /** `splitString` cuts exactly at the split points: the end of every piece
      but the last (counting the ", " delimiters between pieces) is a split
      point, and every split point is such an end. So a ", " inside
      parentheses is never cut and one after a `)` always is. */
  lemma CutsAreSplitPoints(s: string)
    ensures CutsSplit(s, 0, RawSegments(s))
    ensures SplitsCut(s, 0, 0, RawSegments(s))
  {
    assert s[..0] == "";
    assert RawSegments(s) == Scan(s, 0, Flag(s[..0]), "");
    ScanCutsAreSplitPoints(s, 0, 0, "");
    SplitPointsAreScanCuts(s, 0, 0, "");
  }

  /** The flag is set after `p` exactly when some `(` in `p` has no `)`
      after it: a later `)` clears it whatever the nesting. */
  lemma {:induction false} FlagMeansOpenParen(p: string)
    ensures Flag(p) <==>
      exists k :: 0 <= k < |p| && p[k] == '(' && forall m :: k < m < |p| ==> p[m] != ')'
  {
    if |p| > 0 {
      var q := p[..|p| - 1];
      FlagMeansOpenParen(q);
      var c := p[|p| - 1];
      if c == '(' {
        assert p[|p| - 1] == '(';
      } else if c == ')' {
      } else if Flag(q) {
        var k :| 0 <= k < |q| && q[k] == '(' && forall m :: k < m < |q| ==> q[m] != ')';
        assert p[k] == '(';
      }
    }
  }

  /** A comma-space that follows a `(` with no `)` in between is not a split
      point. */
  lemma InsideParensNoSplit(s: string, k: nat, j: nat)
    requires k <= j < |s| && s[k] == '('
    requires forall m :: k < m <= j ==> s[m] != ')'
    ensures !SplitPoint(s, j)
  {
    var p := s[..j + 1];
    assert p[k] == '(';
    assert forall m :: k < m < |p| ==> p[m] != ')';
    FlagMeansOpenParen(p);
  }

  /** A comma-space after a `)` with no `(` in between always splits, even
      inside an outer pair of parentheses: the flag does not count depth. */
  lemma AfterCloseParenSplits(s: string, k: nat, j: nat)
    requires k < j && j + 1 < |s| && s[k] == ')'
    requires forall m :: k < m <= j ==> s[m] != '('
    requires s[j] == ',' && s[j + 1] == ' '
    ensures SplitPoint(s, j)
  {
    var p := s[..j + 1];
    FlagMeansOpenParen(p);
  }

  // ---------------------------------------------------------------------
  // Inputs without parentheses or without delimiters.

  predicate NoParens(s: string) {
    forall k :: 0 <= k < |s| ==> s[k] != '(' && s[k] != ')'
  }

  /** Reference split: cut at every occurrence of ", ", left to right. */
  function SplitOnSeparator(s: string): (r: seq<string>)
    ensures |r| >= 1
    decreases |s|
  {
    match IndexOf(s, Separator)
    case None => [s]
    case Some(i) => [s[..i]] + SplitOnSeparator(s[i + 2..])
  }

  /** Without an occurrence at index 0, the first occurrence in `t` is the
      first occurrence in `t[1..]` shifted by one. */
  lemma IndexOfCons(t: string, p: string)
    requires |t| > 0 && !OccursAt(t, p, 0)
    ensures IndexOf(t, p) == match IndexOf(t[1..], p)
      case None => None
      case Some(i) => Some(i + 1)
  {
    if |t| >= |p| {
      assert t[..|p|] != p;
    }
  }

  /** Dropping a first character that does not begin a ", " extends the first
      piece of the reference split by that character. */
  lemma SplitOnSeparatorCons(t: string)
    requires |t| > 0 && !OccursAt(t, Separator, 0)
    ensures var r := SplitOnSeparator(t[1..]);
      SplitOnSeparator(t) == [[t[0]] + r[0]] + r[1..]
  {
    var u := t[1..];
    var o := IndexOf(u, Separator);
    if o.None? {
      ConsNoSeparator(t);
      assert SplitOnSeparator(u) == [u];
      assert t == [t[0]] + u;
    } else {
      var i := o.value;
      ConsLaterSeparator(t, i);
      var tail := SplitOnSeparator(t[i + 3..]);
      assert u[i + 2..] == t[i + 3..];
      var r := SplitOnSeparator(u);
      assert r == [u[..i]] + tail;
      assert r[0] == u[..i];
      assert r[1..] == tail;
      PrefixCons(t, i);
    }
  }

  lemma PrefixCons(t: string, i: nat)
    requires i < |t|
    ensures t[..i + 1] == [t[0]] + t[1..][..i]
  {
  }

  lemma ConsNoSeparator(t: string)
    requires |t| > 0 && !OccursAt(t, Separator, 0)
    requires IndexOf(t[1..], Separator).None?
    ensures SplitOnSeparator(t) == [t]
  {
    IndexOfCons(t, Separator);
  }

  lemma ConsLaterSeparator(t: string, i: nat)
    requires |t| > 0 && !OccursAt(t, Separator, 0)
    requires IndexOf(t[1..], Separator) == Some(i)
    ensures SplitOnSeparator(t) == [t[..i + 1]] + SplitOnSeparator(t[i + 3..])
  {
    IndexOfCons(t, Separator);
    assert IndexOf(t, Separator) == Some(i + 1);
  }

  /** Without parentheses the scan from `i` is the reference split of the
      rest, with `cur` in front of its first piece. */
  lemma {:induction false} ScanWithoutParens(s: string, i: nat, cur: string)
    requires i <= |s| && NoParens(s)
    ensures var r := SplitOnSeparator(s[i..]);
      Scan(s, i, false, cur) == [cur + r[0]] + r[1..]
    decreases |s| - i
  {
    if i == |s| {
      assert s[i..] == "";
      assert IndexOf("", Separator).None?;
      assert SplitOnSeparator(s[i..]) == [""];
      assert cur + "" == cur;
    } else if s[i] == ',' && i + 1 < |s| && s[i + 1] == ' ' {
      ScanWithoutParens(s, i + 2, "");
      ScanAtSeparator(s, i, cur);
    } else {
      ScanWithoutParens(s, i + 1, cur + [s[i]]);
      ScanAtOther(s, i, cur);
    }
  }

  lemma ScanAtSeparator(s: string, i: nat, cur: string)
    requires i + 1 < |s| && NoParens(s) && s[i] == ',' && s[i + 1] == ' '
    requires var p := SplitOnSeparator(s[i + 2..]);
      Scan(s, i + 2, false, "") == ["" + p[0]] + p[1..]
    ensures var r := SplitOnSeparator(s[i..]);
      Scan(s, i, false, cur) == [cur + r[0]] + r[1..]
  {
    var p := SplitOnSeparator(s[i + 2..]);
    assert "" + p[0] == p[0];
    assert [p[0]] + p[1..] == p;
    assert Scan(s, i, false, cur) == [cur] + p;
    assert s[i..][..2] == Separator;
    assert IndexOf(s[i..], Separator) == Some(0);
    assert s[i..][2..] == s[i + 2..];
    var r := SplitOnSeparator(s[i..]);
    assert r == [""] + p;
    assert r[0] == "" && r[1..] == p;
    assert cur + "" == cur;
  }

  lemma ScanAtOther(s: string, i: nat, cur: string)
    requires i < |s| && NoParens(s) && !(s[i] == ',' && i + 1 < |s| && s[i + 1] == ' ')
    requires var p := SplitOnSeparator(s[i + 1..]);
      Scan(s, i + 1, false, cur + [s[i]]) == [cur + [s[i]] + p[0]] + p[1..]
    ensures var r := SplitOnSeparator(s[i..]);
      Scan(s, i, false, cur) == [cur + r[0]] + r[1..]
  {
    var p := SplitOnSeparator(s[i + 1..]);
    assert Scan(s, i, false, cur) == [cur + [s[i]] + p[0]] + p[1..];
    assert !OccursAt(s[i..], Separator, 0);
    SplitOnSeparatorCons(s[i..]);
    assert s[i..][1..] == s[i + 1..];
    var r := SplitOnSeparator(s[i..]);
    assert r == [[s[i]] + p[0]] + p[1..];
    assert r[0] == [s[i]] + p[0] && r[1..] == p[1..];
    assert cur + [s[i]] + p[0] == cur + ([s[i]] + p[0]);
  }

  /** For an input with no parentheses the segments are exactly the trimmed
      pieces of cutting at every ", ". */
  lemma NoParensSplitsEverywhere(s: string)
    requires NoParens(s)
    ensures RawSegments(s) == SplitOnSeparator(s)
    ensures Segments(s) == TrimAll(SplitOnSeparator(s))
  {
    ScanWithoutParens(s, 0, "");
    assert s[0..] == s;
    var r := SplitOnSeparator(s);
    assert "" + r[0] == r[0];
    assert [r[0]] + r[1..] == r;
  }

  lemma {:induction false} NoSeparatorNoSplitPoint(s: string, i: nat)
    requires forall j :: 0 <= j < |s| - 1 ==> !(s[j] == ',' && s[j + 1] == ' ')
    ensures SplitCount(s, i) == 0
    decreases |s| - i
  {
    if i < |s| {
      NoSeparatorNoSplitPoint(s, i + 1);
    }
  }

  /** An input without any ", " is a single segment, the trimmed input. */
  lemma NoSeparatorSingleSegment(s: string)
    requires forall j :: 0 <= j < |s| - 1 ==> !(s[j] == ',' && s[j + 1] == ' ')
    ensures Segments(s) == [Trim(s)]
  {
    NoSeparatorNoSplitPoint(s, 0);
    SegmentCount(s);
    JoinRawSegments(s);
    var raw := RawSegments(s);
    assert |raw| == 1 && Join(raw, Separator) == raw[0];
    assert raw == [s];
  }

  /** The empty cell is one empty segment. */
  lemma EmptyInput()
    ensures Segments("") == [""]
  {
    NoSeparatorSingleSegment("");
  }

  // ---------------------------------------------------------------------
  // Worked examples.

  /** Trimming pieces that carry no surrounding whitespace changes nothing. */
  lemma TrimAllTrimmed(xs: seq<string>)
    requires forall k :: 0 <= k < |xs| ==> IsTrimmed(xs[k])
    ensures TrimAll(xs) == xs
  {
  }

  /** When every raw piece is already trimmed, joining the segments with
      ", " gives back the input: splitting loses nothing. */
  lemma TrimmedSegmentsRejoin(s: string)
    requires forall k :: 0 <= k < |RawSegments(s)| ==> IsTrimmed(RawSegments(s)[k])
    ensures Join(Segments(s), Separator) == s
  {
    JoinRawSegments(s);
    TrimAllTrimmed(RawSegments(s));
  }

  /** A comma inside parentheses does not split. */
  lemma ParenthesisedExample()
    ensures Segments("a (b, c), d") == ["a (b, c)", "d"]
  {
    ParenthesisedExampleRaw();
    assert IsTrimmed("a (b, c)") && IsTrimmed("d");
    TrimAllTrimmed(["a (b, c)", "d"]);
  }

  lemma ParenthesisedExampleRaw()
    ensures RawSegments("a (b, c), d") == ["a (b, c)", "d"]
  {
    var s := "a (b, c), d";
    assert Scan(s, 11, false, "d") == ["d"];
    assert "" + [s[10]] == "d";
    assert Scan(s, 10, false, "") == ["d"];
    assert Scan(s, 8, false, "a (b, c)") == ["a (b, c)", "d"];
    assert "a (b, c" + [s[7]] == "a (b, c)";
    assert Scan(s, 7, true, "a (b, c") == ["a (b, c)", "d"];
    assert "a (b, " + [s[6]] == "a (b, c";
    assert Scan(s, 6, true, "a (b, ") == ["a (b, c)", "d"];
    assert "a (b," + [s[5]] == "a (b, ";
    assert Scan(s, 5, true, "a (b,") == ["a (b, c)", "d"];
    assert "a (b" + [s[4]] == "a (b,";
    assert Scan(s, 4, true, "a (b") == ["a (b, c)", "d"];
    assert "a (" + [s[3]] == "a (b";
    assert Scan(s, 3, true, "a (") == ["a (b, c)", "d"];
    assert "a " + [s[2]] == "a (";
    assert Scan(s, 2, false, "a ") == ["a (b, c)", "d"];
    assert "a" + [s[1]] == "a ";
    assert Scan(s, 1, false, "a") == ["a (b, c)", "d"];
    assert "" + [s[0]] == "a";
    assert Scan(s, 0, false, "") == ["a (b, c)", "d"];
  }

  /** The first `)` clears the flag even inside an outer pair, so the
      following comma-space splits. */
  lemma NestedParensExample()
    ensures Segments("((a), b)") == ["((a)", "b)"]
  {
    NestedParensExampleRaw();
    assert IsTrimmed("((a)") && IsTrimmed("b)");
    TrimAllTrimmed(["((a)", "b)"]);
  }

  lemma NestedParensExampleRaw()
    ensures RawSegments("((a), b)") == ["((a)", "b)"]
  {
    var s := "((a), b)";
    assert Scan(s, 8, false, "b)") == ["b)"];
    assert "b" + [s[7]] == "b)";
    assert Scan(s, 7, false, "b") == ["b)"];
    assert "" + [s[6]] == "b";
    assert Scan(s, 6, false, "") == ["b)"];
    assert Scan(s, 4, false, "((a)") == ["((a)", "b)"];
    assert "((a" + [s[3]] == "((a)";
    assert Scan(s, 3, true, "((a") == ["((a)", "b)"];
    assert "((" + [s[2]] == "((a";
    assert Scan(s, 2, true, "((") == ["((a)", "b)"];
    assert "(" + [s[1]] == "((";
    assert Scan(s, 1, true, "(") == ["((a)", "b)"];
    assert "" + [s[0]] == "(";
    assert Scan(s, 0, false, "") == ["((a)", "b)"];
  }
}
