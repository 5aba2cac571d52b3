/**
  The Python string built-ins the diagnostic relies on: `str.strip()`,
  `str.split()`, `str.splitlines()`, `str.split(sep, 1)`, `sep.join(parts)`,
  the substring test `sub in s`, `str.lower()`/`str.upper()` and `c * n`.
 */
module PyText {

  /** The characters `str.isspace()` accepts; `str.split()` and `str.strip()`
      with no argument split on and strip exactly these. */
  predicate IsSpace(c: char) {
    c == ' ' || ('\t' <= c <= '\r') || ('\U{1C}' <= c <= '\U{1F}')
    || c == '\U{85}' || c == '\U{A0}' || c == '\U{1680}'
    || ('\U{2000}' <= c <= '\U{200A}') || c == '\U{2028}' || c == '\U{2029}'
    || c == '\U{202F}' || c == '\U{205F}' || c == '\U{3000}'
  }

  /** The line boundaries of `str.splitlines()` (`\r\n` counts as one). */
  predicate IsLineBreak(c: char) {
    ('\n' <= c <= '\r') || ('\U{1C}' <= c <= '\U{1E}')
    || c == '\U{85}' || c == '\U{2028}' || c == '\U{2029}'
  }

  predicate AllSpace(s: string) {
    forall i :: 0 <= i < |s| ==> IsSpace(s[i])
  }

  predicate NoSpace(s: string) {
    forall i :: 0 <= i < |s| ==> !IsSpace(s[i])
  }

  predicate NoBreak(s: string) {
    forall i :: 0 <= i < |s| ==> !IsLineBreak(s[i])
  }

  // ---------------------------------------------------------------------
  // strip

  /** `s.lstrip()`: `s` without its leading whitespace. */
  function StripStart(s: string): string {
    if s != [] && IsSpace(s[0]) then StripStart(s[1..]) else s
  }

  /** It is the longest suffix of `s` that does not start with whitespace. */
  lemma {:induction false} StripStartSpec(s: string)
    ensures var r := StripStart(s);
      && |r| <= |s| && r == s[|s| - |r|..]
      && AllSpace(s[..|s| - |r|])
      && (r == [] || !IsSpace(r[0]))
  {
    if s != [] && IsSpace(s[0]) {
      StripStartSpec(s[1..]);
      var r := StripStart(s[1..]);
      assert s[1..][..|s| - 1 - |r|] == s[1..|s| - |r|];
    }
  }

  /** `s.rstrip()`: `s` without its trailing whitespace. */
  function StripEnd(s: string): string {
    if s != [] && IsSpace(s[|s| - 1]) then StripEnd(s[..|s| - 1]) else s
  }

  /** It is the longest prefix of `s` that does not end with whitespace. */
  lemma {:induction false} StripEndSpec(s: string)
    ensures var r := StripEnd(s);
      && |r| <= |s| && r == s[..|r|]
      && AllSpace(s[|r|..])
      && (r == [] || !IsSpace(r[|r| - 1]))
  {
    if s != [] && IsSpace(s[|s| - 1]) {
      StripEndSpec(s[..|s| - 1]);
      var r := StripEnd(s[..|s| - 1]);
      assert s[..|s| - 1][|r|..] + [s[|s| - 1]] == s[|r|..];
    }
  }

  /** `s.strip()`: `s` with leading and trailing whitespace removed. */
  function Strip(s: string): string
  {
    StripEnd(StripStart(s))
  }

  /** The stripped string is the infix of `s` between an all-whitespace prefix
      and an all-whitespace suffix, and it neither starts nor ends with
      whitespace. */
  lemma StripSpec(s: string)
    ensures var r := Strip(s);
      && (exists i :: 0 <= i <= |s| - |r| && r == s[i..i + |r|]
                      && AllSpace(s[..i]) && AllSpace(s[i + |r|..]))
      && (r == [] || (!IsSpace(r[0]) && !IsSpace(r[|r| - 1])))
  {
    var t := StripStart(s);
    StripStartSpec(s);
    var r := StripEnd(t);
    StripEndSpec(t);
    var i := |s| - |t|;
    assert t == s[i..];
    assert r == s[i..i + |r|] by {
      assert r == t[..|r|];
    }
    assert AllSpace(s[i + |r|..]) by {
      assert s[i + |r|..] == t[|r|..];
    }
    assert r != [] ==> r[0] == t[0];
  }

  /** Stripping leaves a string unchanged exactly when it has no whitespace at
      either end; in particular `strip` is idempotent. */
  lemma StripFixedPoint(s: string)
    ensures Strip(s) == s <==> (s == [] || (!IsSpace(s[0]) && !IsSpace(s[|s| - 1])))
  {
    StripSpec(s);
  }

  lemma StripIdempotent(s: string)
    ensures Strip(Strip(s)) == Strip(s)
  {
    StripFixedPoint(Strip(s));
    StripSpec(s);
  }

  /** `s.strip()` is empty (falsy) exactly when `s` is all whitespace. */
  lemma StripEmptyIff(s: string)
    ensures Strip(s) == [] <==> AllSpace(s)
  {
    var t := StripStart(s);
    StripStartSpec(s);
    assert t != [] ==> t[0] == s[|s| - |t|];
    var r := Strip(s);
    StripSpec(s);
    if r == [] {
      var i :| 0 <= i <= |s| - |r| && r == s[i..i + |r|] && AllSpace(s[..i]) && AllSpace(s[i + |r|..]);
      forall k | 0 <= k < |s| ensures IsSpace(s[k]) {
        if k < i {
          assert s[k] == s[..i][k];
        } else {
          assert s[k] == s[i..][k - i];
        }
      }
    }
  }

  // ---------------------------------------------------------------------
  // split (no separator)

  /** The length of the longest whitespace-free prefix of `s`. */
  function WordEnd(s: string): (n: nat)
    ensures n <= |s| && NoSpace(s[..n]) && (n == |s| || IsSpace(s[n]))
  {
    if s == [] || IsSpace(s[0]) then 0
    else
      var n := 1 + WordEnd(s[1..]);
      assert s[..n] == [s[0]] + s[1..][..n - 1];
      n
  }

  /** `s.split()`: the maximal runs of non-whitespace characters, in order. */
  function Split(s: string): (ws: seq<string>)
    ensures forall k :: 0 <= k < |ws| ==> ws[k] != [] && NoSpace(ws[k])
    decreases |s|
  {
    if s == [] then []
    else if IsSpace(s[0]) then Split(s[1..])
    else
      var n := WordEnd(s);
      [s[..n]] + Split(s[n..])
  }

  /** `sep.join(parts)`. */
  function Join(parts: seq<string>, sep: string): string
  {
    if |parts| == 0 then ""
    else if |parts| == 1 then parts[0]
    else parts[0] + sep + Join(parts[1..], sep)
  }

  /** `t` occurs in `s` at `i` as a whole word: it is non-empty, has no
      whitespace and is bordered by whitespace or the ends of `s`. */
  predicate IsWordAt(s: string, t: string, i: int) {
    && 0 <= i && i + |t| <= |s| && s[i..i + |t|] == t
    && t != [] && NoSpace(t)
    && (i == 0 || IsSpace(s[i - 1]))
    && (i + |t| == |s| || IsSpace(s[i + |t|]))
  }

  lemma WordEndAt(s: string, t: string)
    requires IsWordAt(s, t, 0)
    ensures WordEnd(s) == |t|
  {
  }

  /** A whole word of a suffix `s[d..]` is a whole word of `s`, provided it
      is not glued to a non-whitespace character just before the cut. */
  lemma WordAtShiftUp(s: string, t: string, d: nat, i: int)
    requires d <= |s| && IsWordAt(s[d..], t, i)
    requires i > 0 || d == 0 || IsSpace(s[d - 1])
    ensures IsWordAt(s, t, d + i)
  {
    assert s[d + i..d + i + |t|] == s[d..][i..i + |t|];
  }

  /** A whole word of `s` that starts at or after `d` is a whole word of `s[d..]`. */
  lemma WordAtShiftDown(s: string, t: string, d: nat, j: int)
    requires IsWordAt(s, t, j) && d <= j
    ensures IsWordAt(s[d..], t, j - d)
  {
    assert s[d..][j - d..j - d + |t|] == s[j..j + |t|];
  }

  lemma {:induction false} SplitYieldsWords(s: string, t: string)
    requires t in Split(s)
    ensures exists i :: IsWordAt(s, t, i)
    decreases |s|
  {
    if IsSpace(s[0]) {
      SplitYieldsWords(s[1..], t);
      var i :| IsWordAt(s[1..], t, i);
      WordAtShiftUp(s, t, 1, i);
    } else {
      var n := WordEnd(s);
      if t == s[..n] {
        assert IsWordAt(s, t, 0);
      } else {
        assert t in Split(s[n..]);
        SplitYieldsWords(s[n..], t);
        var i :| IsWordAt(s[n..], t, i);
        WordAtShiftUp(s, t, n, i);
      }
    }
  }

  lemma {:induction false} WordsAreSplit(s: string, t: string, i: int)
    requires IsWordAt(s, t, i)
    ensures t in Split(s)
    decreases |s|
  {
    if IsSpace(s[0]) {
      assert i != 0;
      WordAtShiftDown(s, t, 1, i);
      WordsAreSplit(s[1..], t, i - 1);
    } else {
      var n := WordEnd(s);
      if i == 0 {
        WordEndAt(s, t);
        assert t == s[..n];
      } else {
        assert n < i;
        WordAtShiftDown(s, t, n, i);
        WordsAreSplit(s[n..], t, i - n);
      }
    }
  }

  /** The membership test `t in s.split()` holds exactly when `t` occurs in `s`
      as a whole whitespace-delimited word. */
  lemma InSplitIff(s: string, t: string)
    ensures t in Split(s) <==> exists i :: IsWordAt(s, t, i)
  {
    if t in Split(s) {
      SplitYieldsWords(s, t);
    }
    if exists i :: IsWordAt(s, t, i) {
      var i :| IsWordAt(s, t, i);
      WordsAreSplit(s, t, i);
    }
  }

  /** Splitting words joined by single spaces gives the words back. */
  lemma {:induction false} SplitJoin(ws: seq<string>)
    requires forall k :: 0 <= k < |ws| ==> ws[k] != [] && NoSpace(ws[k])
    ensures Split(Join(ws, " ")) == ws
  {
    if |ws| == 1 {
      var s := ws[0];
      assert IsWordAt(s, s, 0);
      WordEndAt(s, s);
      assert s[|s|..] == [];
    } else if |ws| > 1 {
      var w := ws[0];
      var rest := Join(ws[1..], " ");
      var s := w + " " + rest;
      assert s[..|w|] == w;
      assert IsWordAt(s, w, 0);
      WordEndAt(s, w);
      assert s[|w|..] == [' '] + rest;
      assert (s[|w|..])[1..] == rest;
      SplitJoin(ws[1..]);
      assert Split(s) == [w] + ws[1..];
    }
  }

  // ---------------------------------------------------------------------
  // splitlines

  /** The length of the longest prefix of `s` without a line boundary. */
  function LineEnd(s: string): (n: nat)
    ensures n <= |s| && NoBreak(s[..n]) && (n == |s| || IsLineBreak(s[n]))
  {
    if s == [] || IsLineBreak(s[0]) then 0
    else
      var n := 1 + LineEnd(s[1..]);
      assert s[..n] == [s[0]] + s[1..][..n - 1];
      n
  }

  lemma LineEndAt(s: string, l: string)
    requires l <= s && NoBreak(l) && |l| < |s| && IsLineBreak(s[|l|])
    ensures LineEnd(s) == |l|
  {
  }

  /** The length of the line boundary at `s[n]`: two for `\r\n`, else one. */
  function BreakLength(s: string, n: nat): (k: nat)
    requires n < |s|
    ensures 1 <= k <= 2 && n + k <= |s|
  {
    if s[n] == '\r' && n + 1 < |s| && s[n + 1] == '\n' then 2 else 1
  }

  /** The boundary that ends the first line of `s`. */
  function FirstBreak(s: string): string
    requires LineEnd(s) < |s|
  {
    s[LineEnd(s)..LineEnd(s) + BreakLength(s, LineEnd(s))]
  }

  /** The text after the first line of `s` and its boundary. */
  function AfterBreak(s: string): (t: string)
    requires LineEnd(s) < |s|
    ensures |t| < |s|
  {
    s[LineEnd(s) + BreakLength(s, LineEnd(s))..]
  }

  /** `s.splitlines()`: the lines of `s` without their boundaries; a final
      boundary does not start an extra empty line. */
  function SplitLines(s: string): seq<string>
    decreases |s|
  {
    if s == [] then []
    else if LineEnd(s) == |s| then [s]
    else [s[..LineEnd(s)]] + SplitLines(AfterBreak(s))
  }

  /** The boundaries `s.splitlines()` removes, in order. */
  function LineBreaks(s: string): seq<string>
    decreases |s|
  {
    if s == [] || LineEnd(s) == |s| then []
    else [FirstBreak(s)] + LineBreaks(AfterBreak(s))
  }

  /** The text made of the given lines, each one followed by `\n`. */
  function Terminated(ls: seq<string>): string
  {
    if ls == [] then "" else ls[0] + "\n" + Terminated(ls[1..])
  }

  /** A line boundary `splitlines` removes: `\r\n`, or one line-break character. */
  predicate IsBoundary(b: string) {
    b == "\r\n" || (|b| == 1 && IsLineBreak(b[0]))
  }

  /** The lines `ls` put back together, line `k` followed by boundary `k`;
      a last line without a boundary ends the text. */
  function Unsplit(ls: seq<string>, bs: seq<string>): string
    decreases ls
  {
    if ls == [] then ""
    else if bs == [] then ls[0]
    else ls[0] + bs[0] + Unsplit(ls[1..], bs[1..])
  }

  /** `ls` and `bs` cut a text into lines as `splitlines` does: the lines hold
      no boundary, every line is followed by a boundary except perhaps a
      non-empty last one, and a bare `\r` is never directly followed by `\n`
      (that pair is a single boundary). */
  predicate WellSplit(ls: seq<string>, bs: seq<string>)
    decreases ls
  {
    if ls == [] then bs == []
    else
      && NoBreak(ls[0])
      && if bs == [] then |ls| == 1 && ls[0] != ""
         else
           var rest := Unsplit(ls[1..], bs[1..]);
           && IsBoundary(bs[0])
           && (bs[0] == "\r" ==> rest == [] || rest[0] != '\n')
           && WellSplit(ls[1..], bs[1..])
  }

  /** Putting one more line and its boundary in front of a cut. */
  lemma WellSplitCons(l: string, b: string, ls: seq<string>, bs: seq<string>)
    requires NoBreak(l) && IsBoundary(b) && WellSplit(ls, bs)
    requires var rest := Unsplit(ls, bs); b == "\r" ==> rest == [] || rest[0] != '\n'
    ensures WellSplit([l] + ls, [b] + bs)
    ensures Unsplit([l] + ls, [b] + bs) == l + b + Unsplit(ls, bs)
  {
    assert ([l] + ls)[1..] == ls && ([b] + bs)[1..] == bs;
  }

  /** A sequence is its three pieces around two cut points. */
  lemma Cut3<T>(s: seq<T>, i: int, j: int)
    requires 0 <= i <= j <= |s|
    ensures s == s[..i] + s[i..j] + s[j..]
  {
    assert s[..i] + s[i..] == s;
    assert s[i..] == s[i..j] + s[j..];
  }

  /** The first line of `s`, its boundary and the rest make up `s`. */
  lemma FirstBreakCut(s: string)
    requires LineEnd(s) < |s|
    ensures s == s[..LineEnd(s)] + FirstBreak(s) + AfterBreak(s)
  {
    var n := LineEnd(s);
    Cut3(s, n, n + BreakLength(s, n));
  }

  /** The boundary is a boundary. */
  lemma FirstBreakIsBoundary(s: string)
    requires LineEnd(s) < |s|
    ensures IsBoundary(FirstBreak(s))
  {
    var n := LineEnd(s);
    if BreakLength(s, n) == 2 {
      assert FirstBreak(s) == "\r\n";
    } else {
      assert FirstBreak(s) == [s[n]];
    }
  }

  /** It is a bare `\r` only when no `\n` follows. */
  lemma FirstBreakNotHalf(s: string)
    requires LineEnd(s) < |s|
    ensures var t := AfterBreak(s); FirstBreak(s) == "\r" ==> t == [] || t[0] != '\n'
  {
    var n := LineEnd(s);
    var t := AfterBreak(s);
    if FirstBreak(s) == "\r" && t != [] {
      assert s[n] == '\r' && BreakLength(s, n) == 1;
      assert t[0] == s[n + 1];
    }
  }

  /** The lines of `s`, with the boundaries between them, rebuild `s`, and
      they are a cut of the kind `WellSplit` describes. */
  lemma {:induction false} SplitLinesRebuild(s: string)
    ensures WellSplit(SplitLines(s), LineBreaks(s))
    ensures Unsplit(SplitLines(s), LineBreaks(s)) == s
    decreases |s|
  {
    if s != [] {
      if LineEnd(s) == |s| {
        assert s[..LineEnd(s)] == s;
      } else {
        var t := AfterBreak(s);
        FirstBreakCut(s);
        FirstBreakIsBoundary(s);
        FirstBreakNotHalf(s);
        SplitLinesRebuild(t);
        WellSplitCons(s[..LineEnd(s)], FirstBreak(s), SplitLines(t), LineBreaks(t));
      }
    }
  }

  /** In `l + b + rest`, with `l` a line and `b` a boundary that is not the
      first half of a `\r\n`, the first line is `l`, its boundary `b`, and
      what follows `rest`. */
  lemma LineThenBoundary(l: string, b: string, rest: string)
    requires NoBreak(l) && IsBoundary(b)
    requires b == "\r" ==> rest == [] || rest[0] != '\n'
    ensures var s := l + b + rest;
      && LineEnd(s) == |l| && s[..|l|] == l && FirstBreak(s) == b && AfterBreak(s) == rest
  {
    var s := l + b + rest;
    assert s[|l|] == b[0];
    LineEndAt(s, l);
    if b == "\r\n" {
      assert s[|l| + 1] == '\n';
    } else if |l| + 1 < |s| {
      assert s[|l| + 1] == rest[0];
    }
    assert BreakLength(s, |l|) == |b|;
    assert s[..|l|] == l;
    assert s[|l|..|l| + |b|] == b;
    assert s[|l| + |b|..] == rest;
  }

  /** Conversely, a cut of the kind `WellSplit` describes is the one
      `splitlines` makes: it gives back exactly those lines and boundaries.
      With `SplitLinesRebuild`, this makes `SplitLines` the unique such cut. */
  lemma {:induction false} SplitLinesUnsplit(ls: seq<string>, bs: seq<string>)
    requires WellSplit(ls, bs)
    ensures SplitLines(Unsplit(ls, bs)) == ls
    ensures LineBreaks(Unsplit(ls, bs)) == bs
    decreases ls
  {
    if ls != [] {
      var s := Unsplit(ls, bs);
      if bs == [] {
        assert s == ls[0];
        assert LineEnd(s) == |s|;
      } else {
        var rest := Unsplit(ls[1..], bs[1..]);
        assert s == ls[0] + bs[0] + rest;
        LineThenBoundary(ls[0], bs[0], rest);
        SplitLinesUnsplit(ls[1..], bs[1..]);
        assert ls == [ls[0]] + ls[1..] && bs == [bs[0]] + bs[1..];
      }
    }
  }

  /** In particular, no line holds a boundary. */
  lemma SplitLinesNoBreak(s: string)
    ensures forall k :: 0 <= k < |SplitLines(s)| ==> NoBreak(SplitLines(s)[k])
  {
    SplitLinesRebuild(s);
    WellSplitLines(SplitLines(s), LineBreaks(s));
  }

  lemma {:induction false} WellSplitLines(ls: seq<string>, bs: seq<string>)
    requires WellSplit(ls, bs)
    ensures forall k :: 0 <= k < |ls| ==> NoBreak(ls[k])
    decreases ls
  {
    if ls != [] && bs != [] {
      WellSplitLines(ls[1..], bs[1..]);
      forall k | 1 <= k < |ls| ensures NoBreak(ls[k]) {
        assert ls[k] == ls[1..][k - 1];
      }
    }
  }

  /** Splitting newline-terminated lines gives the lines back, blank ones
      included, with no extra empty line at the end. */
  lemma {:induction false} SplitLinesTerminated(ls: seq<string>)
    requires forall k :: 0 <= k < |ls| ==> NoBreak(ls[k])
    ensures SplitLines(Terminated(ls)) == ls
  {
    if ls != [] {
      var rest := Terminated(ls[1..]);
      LineThenBoundary(ls[0], "\n", rest);
      SplitLinesTerminated(ls[1..]);
      assert ls == [ls[0]] + ls[1..];
    }
  }

  // ---------------------------------------------------------------------
  // substrings, single splits, case mapping

  /** `sub in s`. */
  predicate Contains(s: string, sub: string) {
    exists i :: 0 <= i <= |s| && sub <= s[i..]
  }

  /** The index of the first `c` in `s`, or `|s|` if there is none. */
  function IndexOf(s: string, c: char): (i: nat)
    ensures i <= |s| && c !in s[..i] && (i < |s| ==> s[i] == c)
  {
    if s == [] || s[0] == c then 0
    else
      var i := 1 + IndexOf(s[1..], c);
      assert s[..i] == [s[0]] + s[1..][..i - 1];
      i
  }

  /** `s.split(c, 1)`: `s` cut at its first `c`, or `[s]` when there is none. */
  function SplitOnce(s: string, c: char): (parts: seq<string>)
    ensures |parts| == 1 <==> c !in s
    ensures |parts| == 1 ==> parts[0] == s
    ensures |parts| == 2 ==> parts[0] + [c] + parts[1] == s && c !in parts[0]
    ensures 1 <= |parts| <= 2
  {
    var i := IndexOf(s, c);
    if i == |s| then
      assert s[..i] == s;
      [s]
    else
      assert s[..i] + [c] + s[i + 1..] == s;
      [s[..i], s[i + 1..]]
  }

  /** Cutting at the first `c` of a string whose prefix `p` holds no `c` but
      ends in one yields the text after `p`. */
  lemma SplitOnceAfterPrefix(s: string, p: string, c: char)
    requires p <= s && p != [] && p[|p| - 1] == c && c !in p[..|p| - 1]
    ensures |SplitOnce(s, c)| == 2 && SplitOnce(s, c)[1] == s[|p|..]
  {
    var i := IndexOf(s, c);
    assert s[..|p|] == p;
    assert s[|p| - 1] == c;
    assert i == |p| - 1;
  }

  /** `c.lower()` for ASCII letters. */
  function LowerChar(c: char): char {
    if 'A' <= c <= 'Z' then (c as int + 32) as char else c
  }

  /** `c.upper()` for ASCII letters. */
  function UpperChar(c: char): char {
    if 'a' <= c <= 'z' then (c as int - 32) as char else c
  }

  /** `s.lower()`, character by character. */
  function Lower(s: string): (r: string)
    ensures |r| == |s| && forall i :: 0 <= i < |s| ==> r[i] == LowerChar(s[i])
  {
    seq(|s|, i requires 0 <= i < |s| => LowerChar(s[i]))
  }

  /** `s.upper()`, character by character. */
  function Upper(s: string): (r: string)
    ensures |r| == |s| && forall i :: 0 <= i < |s| ==> r[i] == UpperChar(s[i])
  {
    seq(|s|, i requires 0 <= i < |s| => UpperChar(s[i]))
  }

  /** Lower- and upper-casing agree on which strings are the same up to case. */
  lemma LowerUpperAgree(s: string, t: string)
    requires forall i :: 0 <= i < |t| ==> 'a' <= t[i] <= 'z'
    ensures Lower(s) == t <==> Upper(s) == Upper(t)
  {
    if Upper(s) == Upper(t) {
      forall i | 0 <= i < |s| ensures Lower(s)[i] == t[i] {
        assert UpperChar(s[i]) == UpperChar(t[i]);
      }
    }
    if Lower(s) == t {
      forall i | 0 <= i < |s| ensures Upper(s)[i] == Upper(t)[i] {
        assert LowerChar(s[i]) == t[i];
      }
    }
  }

  /** Lowering forgets how the text was cased, and so does upper-casing. */
  lemma CaseForgotten(s: string)
    ensures Lower(Upper(s)) == Lower(s)
    ensures Upper(Lower(s)) == Upper(s)
  {
    forall i | 0 <= i < |s| ensures Lower(Upper(s))[i] == Lower(s)[i] {
      assert Upper(s)[i] == UpperChar(s[i]);
    }
    forall i | 0 <= i < |s| ensures Upper(Lower(s))[i] == Upper(s)[i] {
      assert Lower(s)[i] == LowerChar(s[i]);
    }
  }

  /** `c * n` for a one-character string `c`. */
  function Repeat(c: char, n: nat): (r: string)
    ensures |r| == n && forall i :: 0 <= i < n ==> r[i] == c
  {
    seq(n, _ => c)
  }
}
