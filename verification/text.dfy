/**
 * The handful of Python string operations the changelog tools rely on:
 * str.isspace, strip/lstrip/rstrip, ASCII lower-casing, startswith,
 * the universal-newline translation done by Path.read_text, and
 * str.splitlines with and without kept line ends.
 */
module Text {
  import opened Basics

  /** Python's str.isspace() for one character (also what `\s` matches in `re`). */
  predicate IsSpace(c: char) {
    c == ' ' || ('\t' <= c <= '\r') || ('\U{1c}' <= c <= '\U{1f}')
    || c == '\U{85}' || c == '\U{a0}' || c == '\U{1680}'
    || ('\U{2000}' <= c <= '\U{200a}') || c == '\U{2028}' || c == '\U{2029}'
    || c == '\U{202f}' || c == '\U{205f}' || c == '\U{3000}'
  }

  /** The characters at which str.splitlines() ends a line. */
  predicate IsLineBreak(c: char) {
    c == '\n' || c == '\r' || c == '\U{0b}' || c == '\U{0c}'
    || ('\U{1c}' <= c <= '\U{1e}') || c == '\U{85}' || c == '\U{2028}' || c == '\U{2029}'
  }

  /** Every character is white space. */
  predicate AllSpace(s: string) {
    forall i :: 0 <= i < |s| ==> IsSpace(s[i])
  }

  /** No character is one splitlines breaks at. */
  predicate NoLineBreak(s: string) {
    forall i :: 0 <= i < |s| ==> !IsLineBreak(s[i])
  }

  /** The end of the run of white space that starts at index `i`. */
  function SpaceRunEnd(s: string, i: nat): (k: nat)
    requires i <= |s|
    ensures i <= k <= |s|
    ensures forall j :: i <= j < k ==> IsSpace(s[j])
    ensures k == |s| || !IsSpace(s[k])
    decreases |s| - i
  {
    if i < |s| && IsSpace(s[i]) then SpaceRunEnd(s, i + 1) else i
  }

  /** The start of the run of white space that ends just before index `k`. */
  function SpaceRunStart(s: string, k: nat): (i: nat)
    requires k <= |s|
    ensures i <= k
    ensures forall j :: i <= j < k ==> IsSpace(s[j])
    ensures i == 0 || !IsSpace(s[i - 1])
  {
    if k > 0 && IsSpace(s[k - 1]) then SpaceRunStart(s, k - 1) else k
  }

  /** str.lstrip() */
  function LStrip(s: string): (r: string)
    ensures |r| <= |s| && r == s[|s| - |r|..]
    ensures AllSpace(s[..|s| - |r|])
    ensures r == [] || !IsSpace(r[0])
  {
    s[SpaceRunEnd(s, 0)..]
  }

  /** str.rstrip() */
  function RStrip(s: string): (r: string)
    ensures |r| <= |s| && r == s[..|r|]
    ensures AllSpace(s[|r|..])
    ensures r == [] || !IsSpace(r[|r| - 1])
  {
    s[..SpaceRunStart(s, |s|)]
  }

  /** str.strip() */
  function Strip(s: string): string {
    RStrip(LStrip(s))
  }

  /** A stripped string is empty exactly when the original is all white space. */
  lemma StripEmptyIff(s: string)
    ensures Strip(s) == [] <==> AllSpace(s)
  {
    var l := LStrip(s);
    if Strip(s) == [] {
      assert s == s[..|s| - |l|] + l;
      assert AllSpace(l[|Strip(s)|..]);
    }
  }

  /** Stripping keeps every character that is not white space. */
  lemma StripKeepsNonSpace(s: string, i: nat)
    requires i < |s| && !IsSpace(s[i])
    ensures s[i] in Strip(s)
  {
    var l := LStrip(s);
    var d := |s| - |l|;
    assert l[i - d] == s[i];
    var r := RStrip(l);
    assert r[i - d] == s[i];
  }

  /** Stripping adds no character. */
  lemma StripAddsNothing(s: string, c: char)
    requires c !in s
    ensures c !in Strip(s)
  {
    var l := LStrip(s);
    assert c !in l;
  }

  /** Strip leaves a string alone when it neither starts nor ends with white space. */
  lemma StripUnchanged(s: string)
    requires s == [] || (!IsSpace(s[0]) && !IsSpace(s[|s| - 1]))
    ensures Strip(s) == s
  {
  }

  /** A stripped non-empty string starts with a character that is not white space and is its own rstrip. */
  lemma StrippedEnds(s: string)
    requires s != [] && Strip(s) == s
    ensures !IsSpace(s[0]) && RStrip(s) == s
  {
    var l := LStrip(s);
    assert |l| == |s|;
    assert l == s;
  }

  /** Left-stripping ignores leading white space. */
  lemma LStripSpacePrefix(ws: string, line: string)
    requires AllSpace(ws)
    ensures LStrip(ws + line) == LStrip(line)
  {
    var s := ws + line;
    var k := SpaceRunEnd(line, 0);
    var n := SpaceRunEnd(s, 0);
    assert forall j :: 0 <= j < |ws| + k ==> IsSpace(s[j]);
    assert |ws| + k == |s| || !IsSpace(s[|ws| + k]);
    assert n == |ws| + k;
    assert s[n..] == line[k..];
  }
  /** A line that does not start with white space is left alone by lstrip. */
  lemma LStripUnchanged(s: string)
    requires s != [] && !IsSpace(s[0])
    ensures LStrip(s) == s
  {
  }
  /** A line that does not end in white space is left alone by rstrip. */
  lemma RStripUnchanged(s: string)
    requires s != [] && !IsSpace(s[|s| - 1])
    ensures RStrip(s) == s
  {
  }
  /** Right-stripping ignores trailing white space. */
  lemma RStripSpaceSuffix(line: string, ws: string)
    requires AllSpace(ws)
    ensures RStrip(line + ws) == RStrip(line)
  {
    var s := line + ws;
    var k := SpaceRunStart(line, |line|);
    var n := SpaceRunStart(s, |s|);
    assert forall j :: k <= j < |s| ==> IsSpace(s[j]);
    assert k == 0 || !IsSpace(s[k - 1]);
    assert n == k;
    assert s[..n] == line[..k];
  }

  /** Text framed by white space strips to the text, when the text neither starts nor ends with white space. */
  lemma StripFrame(p: string, m: string, q: string)
    requires AllSpace(p) && AllSpace(q)
    requires m != [] && !IsSpace(m[0]) && !IsSpace(m[|m| - 1])
    ensures Strip(p + m + q) == m
  {
    assert p + m + q == p + (m + q);
    LStripSpacePrefix(p, m + q);
    LStripUnchanged(m + q);
    RStripSpaceSuffix(m, q);
    RStripUnchanged(m);
  }

  /** Trailing white space alone does not survive strip. */
  lemma StripHead(m: string, q: string)
    requires AllSpace(q)
    requires m != [] && !IsSpace(m[0]) && !IsSpace(m[|m| - 1])
    ensures Strip(m + q) == m
  {
    LStripUnchanged(m + q);
    RStripSpaceSuffix(m, q);
    RStripUnchanged(m);
  }

  /** Leading white space alone does not survive strip. */
  lemma StripTail(p: string, m: string)
    requires AllSpace(p)
    requires m != [] && !IsSpace(m[0]) && !IsSpace(m[|m| - 1])
    ensures Strip(p + m) == m
  {
    LStripSpacePrefix(p, m);
    LStripUnchanged(m);
    RStripUnchanged(m);
  }

  /** A string is blank exactly when its rstrip is. */
  lemma RStripBlankIff(s: string)
    ensures AllSpace(RStrip(s)) <==> AllSpace(s)
  {
    var r := RStrip(s);
    assert s == r + s[|r|..];
    assert forall i :: 0 <= i < |r| ==> r[i] == s[i];
  }

  /** Every string is its stripped text framed by the white space strip removes. */
  lemma StripSplit(s: string) returns (p: string, q: string)
    ensures AllSpace(p) && AllSpace(q) && s == p + Strip(s) + q
    ensures Strip(s) == [] || (!IsSpace(Strip(s)[0]) && !IsSpace(Strip(s)[|Strip(s)| - 1]))
  {
    var l := LStrip(s);
    var m := RStrip(l);
    p, q := s[..|s| - |l|], l[|m|..];
    SplitAt(s, |s| - |l|);
    SplitAt(l, |m|);
    AppendAssoc(p, m, q);
    StrippedNoOuterSpace(s);
  }

  /** Neither the first nor the last character is white space. */
  predicate NoOuterSpace(s: string) {
    s == [] || (!IsSpace(s[0]) && !IsSpace(s[|s| - 1]))
  }

  /** strip leaves no white space at either end. */
  lemma StrippedNoOuterSpace(s: string)
    ensures NoOuterSpace(Strip(s))
  {
    var l := LStrip(s);
    var m := RStrip(l);
    if m != [] {
      assert m[0] == l[0];
    }
  }

  /** Stripping twice is stripping once. */
  lemma StripIdempotent(s: string)
    ensures Strip(Strip(s)) == Strip(s)
  {
    var l := LStrip(s);
    var r := RStrip(l);
    if r != [] {
      assert r[0] == l[0];
    }
    StripUnchanged(r);
  }

  /** ASCII lower-casing of one character. */
  function LowerChar(c: char): char {
    if 'A' <= c <= 'Z' then (c as int + 32) as char else c
  }

  /** str.lower(), restricted to the ASCII letters. */
  function Lower(s: string): (r: string)
    ensures |r| == |s|
    ensures forall i :: 0 <= i < |s| ==> r[i] == LowerChar(s[i])
  {
    seq(|s|, i requires 0 <= i < |s| => LowerChar(s[i]))
  }

  /** A character that lower-casing leaves alone survives in the lowered string. */
  lemma LowerKeeps(s: string, c: char)
    requires c in s && LowerChar(c) == c
    ensures c in Lower(s)
  {
    var i :| 0 <= i < |s| && s[i] == c;
    assert Lower(s)[i] == c;
  }

  /** `s.startswith(prefix)` */
  predicate StartsWith(s: string, prefix: string) {
    |prefix| <= |s| && s[..|prefix|] == prefix
  }

  /** A string starts with any of its prefixes. */
  lemma StartsWithJoin(a: string, b: string)
    ensures StartsWith(a + b, a)
  {
    assert (a + b)[..|a|] == a;
  }

  /** `s.endswith(suffix)` */
  predicate EndsWith(s: string, suffix: string) {
    |suffix| <= |s| && s[|s| - |suffix|..] == suffix
  }

  /**
   * Universal newlines: Path.read_text turns "\r\n" and a lone "\r" into "\n".
   */
  function Universal(s: string): (r: string)
    ensures '\r' !in r
    ensures |r| <= |s|
  {
    if s == [] then []
    else if s[0] == '\r' then
      if |s| > 1 && s[1] == '\n' then "\n" + Universal(s[2..]) else "\n" + Universal(s[1..])
    else [s[0]] + Universal(s[1..])
  }

  /** Reading a file returns its text unchanged exactly when it holds no carriage return. */
  lemma {:induction false} UniversalIdentityIff(s: string)
    ensures Universal(s) == s <==> '\r' !in s
  {
    if s == [] {
    } else if s[0] == '\r' {
      assert s[0] in s;
    } else {
      UniversalIdentityIff(s[1..]);
      assert s == [s[0]] + s[1..];
      if '\r' !in s {
        assert '\r' !in s[1..];
      } else {
        assert '\r' in s[1..];
      }
    }
  }

  /** Universal newlines work piece by piece once the first piece does not end in "\r". */
  lemma {:induction false} UniversalAppend(a: string, b: string)
    requires a == [] || a[|a| - 1] != '\r'
    ensures Universal(a + b) == Universal(a) + Universal(b)
    decreases |a|
  {
    if a == [] {
      assert a + b == b;
    } else {
      var n := ReadWidth(a);
      ReadWidthAppend(a, b);
      UniversalAppend(a[n..], b);
      UniversalUnfold(a);
      UniversalUnfold(a + b);
      AppendAssoc(if a[0] == '\r' then "\n" else [a[0]], Universal(a[n..]), Universal(b));
    }
  }

  /** Appending to a text whose last character is not "\r" does not change its first step. */
  lemma ReadWidthAppend(a: string, b: string)
    requires a != [] && a[|a| - 1] != '\r'
    ensures ReadWidth(a + b) == ReadWidth(a) && (a + b)[0] == a[0]
    ensures (a + b)[ReadWidth(a)..] == a[ReadWidth(a)..] + b
  {
    assert a[0] == '\r' ==> |a| >= 2 && (a + b)[1] == a[1];
  }

  /** How many characters the first step of Universal reads: 2 for "\r\n", else 1. */
  function ReadWidth(s: string): (n: nat)
    requires s != []
    ensures 1 <= n <= |s|
  {
    if s[0] == '\r' && |s| > 1 && s[1] == '\n' then 2 else 1
  }

  /** One step of Universal: a line end read as "\n", or the character itself. */
  lemma UniversalUnfold(s: string)
    requires s != []
    ensures Universal(s) == (if s[0] == '\r' then "\n" else [s[0]]) + Universal(s[ReadWidth(s)..])
  {
  }

  /** A text that ends in "\n" still ends in "\n" once read. */
  lemma {:induction false} UniversalEndsNewline(a: string)
    requires a != [] && a[|a| - 1] == '\n'
    ensures Universal(a) != [] && Universal(a)[|Universal(a)| - 1] == '\n'
    decreases |a|
  {
    if a[0] == '\r' && |a| > 1 && a[1] == '\n' {
      if |a| > 2 {
        UniversalEndsNewline(a[2..]);
      }
    } else if |a| > 1 {
      UniversalEndsNewline(a[1..]);
    }
  }

  /** Index just past the first line end of `t` ("\r\n" counts as one), or |t|. */
  function BreakEnd(t: string): (k: nat)
    requires t != []
    ensures 0 < k <= |t|
    ensures NoLineBreak(t[..k - 1]) || (k >= 2 && t[k - 2] == '\r' && t[k - 1] == '\n' && NoLineBreak(t[..k - 2]))
    ensures k < |t| ==> IsLineBreak(t[k - 1])
    decreases |t|
  {
    if t[0] == '\r' && |t| > 1 && t[1] == '\n' then 2
    else if IsLineBreak(t[0]) then 1
    else if |t| == 1 then 1
    else
      var k := BreakEnd(t[1..]);
      assert t[..k] == [t[0]] + t[1..][..k - 1];
      assert k >= 2 ==> t[..k - 1] == [t[0]] + t[1..][..k - 2];
      1 + k
  }

  /** str.splitlines(True): the lines of `t`, each with its own line end. */
  function SplitKeep(t: string): (lines: seq<string>)
    ensures forall i :: 0 <= i < |lines| ==> lines[i] != []
    decreases |t|
  {
    if t == [] then [] else [t[..BreakEnd(t)]] + SplitKeep(t[BreakEnd(t)..])
  }

  /** "".join(lines) */
  function Concat(lines: seq<string>): string {
    if lines == [] then [] else lines[0] + Concat(lines[1..])
  }

  /** Joining two lists of lines is joining each. */
  lemma {:induction false} ConcatAppend(a: seq<string>, b: seq<string>)
    ensures Concat(a + b) == Concat(a) + Concat(b)
  {
    if a == [] {
      assert a + b == b;
    } else {
      assert (a + b)[1..] == a[1..] + b;
      ConcatAppend(a[1..], b);
    }
  }

  /** Joining the kept lines gives back the text: no character is lost or added. */
  lemma {:induction false} ConcatSplitKeep(t: string)
    ensures Concat(SplitKeep(t)) == t
    decreases |t|
  {
    if t != [] {
      var k := BreakEnd(t);
      ConcatSplitKeep(t[k..]);
      assert t == t[..k] + t[k..];
    }
  }

  /** The text ends with a line end that nothing appended can extend ("\r" could become "\r\n"). */
  predicate EndsLine(a: string) {
    a != [] && IsLineBreak(a[|a| - 1]) && a[|a| - 1] != '\r'
  }

  /** A first line that ends in a closed line end is not affected by what follows it. */
  lemma {:induction false} BreakEndPrefix(a: string, b: string)
    requires EndsLine(a)
    ensures BreakEnd(a + b) == BreakEnd(a)
    decreases |a|
  {
    var t := a + b;
    if t[0] == '\r' && |t| > 1 && t[1] == '\n' {
    } else if IsLineBreak(t[0]) {
    } else {
      assert |a| > 1;
      assert (a + b)[1..] == a[1..] + b;
      BreakEndPrefix(a[1..], b);
    }
  }

  /** Text that ends with a closed line end splits independently of what is appended to it. */
  lemma {:induction false} SplitKeepAppend(a: string, b: string)
    requires a == [] || EndsLine(a)
    ensures SplitKeep(a + b) == SplitKeep(a) + SplitKeep(b)
    decreases |a|
  {
    if a == [] {
      assert a + b == b;
    } else {
      var k := BreakEnd(a);
      BreakEndPrefix(a, b);
      SliceAppend(a, b, k);
      SplitKeepUnfold(a);
      SplitKeepUnfold(a + b);
      if k < |a| {
        SplitKeepAppend(a[k..], b);
        AppendAssoc([a[..k]], SplitKeep(a[k..]), SplitKeep(b));
      } else {
        assert a[k..] == [];
        assert a[k..] + b == b;
        assert SplitKeep(a) == [a[..k]];
      }
    }
  }

  /** A line without inner line breaks, followed by "\n", is exactly one kept line. */
  lemma SplitKeepOneLine(line: string)
    requires NoLineBreak(line)
    ensures SplitKeep(line + "\n") == [line + "\n"]
  {
    var t := line + "\n";
    var k := BreakEnd(t);
    assert k == |t|;
    assert t[..k] == t && t[k..] == [];
    assert SplitKeep(t) == [t[..k]] + SplitKeep(t[k..]);
  }

  /** The line without its line end, as str.splitlines() returns it. */
  function Body(line: string): (r: string)
    ensures |r| <= |line| && r == line[..|r|]
  {
    if |line| >= 2 && line[|line| - 2] == '\r' && line[|line| - 1] == '\n' then line[..|line| - 2]
    else if line != [] && IsLineBreak(line[|line| - 1]) then line[..|line| - 1]
    else line
  }

  /** str.splitlines() */
  function SplitLines(t: string): (lines: seq<string>)
    ensures |lines| == |SplitKeep(t)|
    ensures forall i :: 0 <= i < |lines| ==> lines[i] == Body(SplitKeep(t)[i])
  {
    var kept := SplitKeep(t);
    seq(|kept|, i requires 0 <= i < |kept| => Body(kept[i]))
  }

  /** splitlines() of two pieces, the first closed by a line end, is the two lists one after the other. */
  lemma SplitLinesAppend(a: string, b: string)
    requires a == [] || EndsLine(a)
    ensures SplitLines(a + b) == SplitLines(a) + SplitLines(b)
  {
    SplitKeepAppend(a, b);
    var l, r := SplitLines(a + b), SplitLines(a) + SplitLines(b);
    assert |l| == |r|;
    forall i | 0 <= i < |l| ensures l[i] == r[i] {
    }
  }

  /** The body of each kept line. */
  function Bodies(ks: seq<string>): (r: seq<string>)
    ensures |r| == |ks|
    ensures forall i :: 0 <= i < |ks| ==> r[i] == Body(ks[i])
  {
    seq(|ks|, i requires 0 <= i < |ks| => Body(ks[i]))
  }

  /** splitlines() is the body of each line splitlines(True) keeps. */
  lemma SplitLinesAsBodies(t: string)
    ensures SplitLines(t) == Bodies(SplitKeep(t))
  {
  }

  /** Dropping the first kept line drops the first body. */
  lemma BodiesTail(ks: seq<string>)
    requires ks != []
    ensures Bodies(ks[1..]) == Bodies(ks)[1..]
  {
  }

  /** splitlines() of the text after its first line is splitlines() of the text without its first line. */
  lemma SplitLinesTail(t: string)
    requires t != []
    ensures SplitLines(t[BreakEnd(t)..]) == SplitLines(t)[1..]
  {
    var k := BreakEnd(t);
    SplitKeepUnfold(t);
    assert SplitKeep(t)[1..] == SplitKeep(t[k..]);
    SplitLinesAsBodies(t);
    SplitLinesAsBodies(t[k..]);
    BodiesTail(SplitKeep(t));
  }

  /** A text without line breaks is one line, up to its end. */
  lemma BreakEndNoBreak(t: string)
    requires t != [] && NoLineBreak(t)
    ensures BreakEnd(t) == |t|
  {
    var k := BreakEnd(t);
    if k < |t| {
      assert false;
    }
  }

  /** A text without line breaks has no line end to drop. */
  lemma NoBreakBody(x: string)
    requires NoLineBreak(x)
    ensures Body(x) == x
  {
    if x != [] {
      assert !IsLineBreak(x[|x| - 1]);
    }
  }

  /** A last line without a line end reads back as itself. */
  lemma SplitLinesUnclosed(line: string)
    requires line != [] && NoLineBreak(line)
    ensures SplitLines(line) == [line]
  {
    BreakEndNoBreak(line);
    SplitKeepUnfold(line);
    assert line[..|line|] == line;
    assert line[|line|..] == [];
    assert SplitKeep(line) == [line];
    NoBreakBody(line);
    var r := SplitLines(line);
    assert |r| == 1 && r[0] == line;
  }

  /** A line that holds a line break anywhere but at its end, closed by "\n", is read as two lines or more. */
  lemma BrokenLineSplits(d: string)
    requires !NoLineBreak(d) && d != [] && !IsLineBreak(d[|d| - 1])
    ensures |SplitLines(d + "\n")| >= 2
  {
    var i :| 0 <= i < |d| && IsLineBreak(d[i]);
    var t := d + "\n";
    assert t[i] == d[i];
    var k := BreakEnd(t);
    if k - 1 > i {
      assert t[..k - 1][i] == t[i];
    }
    assert k < |t|;
    SplitKeepUnfold(t);
    SplitKeepUnfold(t[k..]);
  }

  /** In a text without "\r", the first line ends at the first line break, at `i` or before. */
  lemma {:induction false} BreakEndFirst(t: string, i: nat)
    requires i < |t| && IsLineBreak(t[i]) && '\r' !in t
    ensures BreakEnd(t) <= i + 1 && IsLineBreak(t[BreakEnd(t) - 1])
    decreases |t|
  {
    if !IsLineBreak(t[0]) {
      assert t[1..][i - 1] == t[i];
      BreakEndFirst(t[1..], i - 1);
    }
  }

  /**
   * The first line str.splitlines finds in a text that holds a line break
   * but no "\r", closed by "\n": the text up to that break.
   */
  lemma FirstPiece(d: string) returns (k: nat)
    requires '\r' !in d && !NoLineBreak(d) && d != [] && !IsSpace(d[0])
    ensures 0 < k < |d| && SplitLines(d + "\n") != [] && SplitLines(d + "\n")[0] == d[..k]
  {
    var i :| 0 <= i < |d| && IsLineBreak(d[i]);
    var t := d + "\n";
    assert t[i] == d[i] && t[0] == d[0];
    BreakEndFirst(t, i);
    var e := BreakEnd(t);
    assert e >= 2;
    var x := t[..e];
    assert x[|x| - 1] == t[e - 1];
    assert x[|x| - 2] == d[e - 2];
    BodyAtBreak(x);
    SplitKeepUnfold(t);
    assert SplitLines(t)[0] == Body(x);
    k := e - 1;
    assert x[..e - 1] == d[..k];
  }

  /** A line ended by a single line break character reads as the line without it. */
  lemma BodyAtBreak(x: string)
    requires |x| >= 2 && IsLineBreak(x[|x| - 1]) && x[|x| - 2] != '\r'
    ensures Body(x) == x[..|x| - 1]
  {
  }

  /** A line without line breaks, followed by "\n", reads back as itself. */
  lemma SplitLinesOneLine(line: string)
    requires NoLineBreak(line)
    ensures SplitLines(line + "\n") == [line]
  {
    SplitKeepOneLine(line);
    LastLineBody(line);
  }

  /** A first line that ends before the end of the text is not affected by what follows the text. */
  lemma {:induction false} BreakEndExtend(a: string, b: string)
    requires a != [] && BreakEnd(a) < |a|
    ensures BreakEnd(a + b) == BreakEnd(a)
    decreases |a|
  {
    var t := a + b;
    if t[0] == '\r' && |t| > 1 && t[1] == '\n' {
    } else if IsLineBreak(t[0]) {
    } else {
      assert (a + b)[1..] == a[1..] + b;
      BreakEndExtend(a[1..], b);
    }
  }

  /** A text with no line break at all, followed by "\n", is one line. */
  lemma BreakEndOneLine(a: string)
    requires NoLineBreak(a)
    ensures BreakEnd(a + "\n") == |a| + 1
  {
  }

  /**
   * Closing a text whose last character is not a line break with "\n"
   * extends its last line and nothing else.
   */
  lemma {:induction false} SplitKeepCloseLast(e: string)
    requires e != [] && !IsLineBreak(e[|e| - 1])
    ensures var ks := SplitKeep(e);
      && ks != []
      && NoLineBreak(ks[|ks| - 1])
      && SplitKeep(e + "\n") == ks[..|ks| - 1] + [ks[|ks| - 1] + "\n"]
    decreases |e|
  {
    var k := BreakEnd(e);
    if k < |e| {
      SplitKeepUnfold(e);
      CloseLastStep(e);
      SplitKeepCloseLast(e[k..]);
      ConsClose(e[..k], SplitKeep(e[k..]));
    } else {
      CloseLastBase(e);
    }
  }

  /** Closing the last of a list of lines with one more line in front. */
  lemma ConsClose(h: string, rest: seq<string>)
    requires rest != []
    ensures var ks := [h] + rest;
      && ks[|ks| - 1] == rest[|rest| - 1]
      && ks[..|ks| - 1] + [ks[|ks| - 1] + "\n"] == [h] + (rest[..|rest| - 1] + [rest[|rest| - 1] + "\n"])
  {
    var ks := [h] + rest;
    assert ks[..|ks| - 1] == [h] + rest[..|rest| - 1];
  }

  /** Closing a text that is a single line without a break. */
  lemma CloseLastBase(e: string)
    requires e != [] && !IsLineBreak(e[|e| - 1]) && BreakEnd(e) == |e|
    ensures SplitKeep(e) == [e] && NoLineBreak(e)
    ensures SplitKeep(e + "\n") == [e + "\n"]
  {
    SingleLine(e);
    SplitKeepUnfold(e);
    assert e[..|e|] == e;
    assert e[|e|..] == [];
    SplitKeepOneLine(e);
  }

  /** A text whose first line runs to its end, and whose last character is no break, has no break at all. */
  lemma SingleLine(e: string)
    requires e != [] && !IsLineBreak(e[|e| - 1]) && BreakEnd(e) == |e|
    ensures NoLineBreak(e)
  {
    var k := |e|;
    assert NoLineBreak(e[..k - 1]);
    forall i | 0 <= i < |e| ensures !IsLineBreak(e[i]) {
      if i < k - 1 {
        assert e[..k - 1][i] == e[i];
      }
    }
  }

  /** Closing a text whose first line ends before its end closes the rest. */
  lemma CloseLastStep(e: string)
    requires e != [] && BreakEnd(e) < |e|
    ensures var k := BreakEnd(e);
      SplitKeep(e + "\n") == [e[..k]] + SplitKeep(e[k..] + "\n")
  {
    var k := BreakEnd(e);
    BreakEndExtend(e, "\n");
    SliceAppend(e, "\n", k);
    SplitKeepUnfold(e + "\n");
  }

  /** Slicing `a + b` at a point within `a`. */
  lemma SliceAppend(a: string, b: string, k: nat)
    requires k <= |a|
    ensures (a + b)[..k] == a[..k] && (a + b)[k..] == a[k..] + b
  {
  }

  /** splitlines(True) takes off the first line and goes on with the rest. */
  lemma SplitKeepUnfold(t: string)
    requires t != []
    ensures SplitKeep(t) == [t[..BreakEnd(t)]] + SplitKeep(t[BreakEnd(t)..])
  {
  }

  /**
   * Closing a non-empty text that does not end in "\n" with "\n" leaves its
   * splitlines() unchanged, except that after a line end other than "\n"
   * it adds one empty line.
   */
  lemma SplitLinesClose(e: string)
    requires e != [] && e[|e| - 1] != '\n' && e[|e| - 1] != '\r'
    ensures if IsLineBreak(e[|e| - 1]) then SplitLines(e + "\n") == SplitLines(e) + [[]]
      else SplitLines(e + "\n") == SplitLines(e)
  {
    if IsLineBreak(e[|e| - 1]) {
      CloseAfterBreak(e);
    } else {
      CloseAfterText(e);
    }
  }

  /** After a complete last line, a further "\n" adds one empty line. */
  lemma CloseAfterBreak(e: string)
    requires EndsLine(e)
    ensures SplitLines(e + "\n") == SplitLines(e) + [[]]
  {
    SplitLinesAppend(e, "\n");
    SplitLinesOneLine([]);
    assert [] + "\n" == "\n";
  }

  /** A "\n" after an unterminated last line closes it and adds no line. */
  lemma CloseAfterText(e: string)
    requires e != [] && !IsLineBreak(e[|e| - 1])
    ensures SplitLines(e + "\n") == SplitLines(e)
  {
    SplitKeepCloseLast(e);
    var ks := SplitKeep(e);
    var l, r := SplitLines(e + "\n"), SplitLines(e);
    assert |l| == |r|;
    forall i | 0 <= i < |l| ensures l[i] == r[i] {
      if i == |l| - 1 {
        LastLineBody(ks[i]);
      }
    }
  }

  /** A line without a break reads as itself, closed by "\n" or not. */
  lemma LastLineBody(x: string)
    requires NoLineBreak(x)
    ensures Body(x + "\n") == x && Body(x) == x
  {
    NoBreakBody(x);
    var t := x + "\n";
    assert t[|t| - 1] == '\n';
    if x != [] {
      assert t[|t| - 2] == x[|x| - 1];
      assert !IsLineBreak(x[|x| - 1]);
    }
    assert t[..|t| - 1] == x;
    assert Body(t) == t[..|t| - 1];
  }

  /** sep.join(parts) */
  function JoinWith(parts: seq<string>, sep: string): string {
    if parts == [] then []
    else if |parts| == 1 then parts[0]
    else parts[0] + sep + JoinWith(parts[1..], sep)
  }

  /** Position of the first `c` in `s` at or after `i`, if any. */
  function IndexFrom(s: string, c: char, i: nat): (r: Option<nat>)
    requires i <= |s|
    ensures r.Some? ==> i <= r.value < |s| && s[r.value] == c && forall j :: i <= j < r.value ==> s[j] != c
    ensures r.None? ==> forall j :: i <= j < |s| ==> s[j] != c
    decreases |s| - i
  {
    if i == |s| then None
    else if s[i] == c then Some(i)
    else IndexFrom(s, c, i + 1)
  }

  /** Position of the first `c` in `s`, if any. */
  function IndexOf(s: string, c: char): (r: Option<nat>)
    ensures r.Some? ==> r.value < |s| && s[r.value] == c && c !in s[..r.value]
    ensures r.None? ==> c !in s
  {
    IndexFrom(s, c, 0)
  }

  /** str.split(c): always at least one piece, and no piece contains `c`. */
  function SplitOn(s: string, c: char): (pieces: seq<string>)
    ensures |pieces| >= 1
    ensures forall i :: 0 <= i < |pieces| ==> c !in pieces[i]
    decreases |s|
  {
    match IndexOf(s, c)
    case None => [s]
    case Some(k) => [s[..k]] + SplitOn(s[k + 1..], c)
  }
}
