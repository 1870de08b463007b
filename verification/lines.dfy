/** The two notions of "line" that `run_static_checks`
    (svdf/static_checks.py) mixes: the line NUMBER of a match counts only
    '\n' characters before it, while the list of lines it indexes comes from
    Python's `str.splitlines()`, which also breaks at '\r', '\v', '\f',
    '\x1c'..'\x1e', '\x85', U+2028 and U+2029 and treats "\r\n" as one break.
    Also Python's `str.strip()`. */
module Lines {
  import opened Base

  /** The characters at which `str.splitlines()` breaks a line: '\n', '\v',
      '\f', '\r', '\x1c'..'\x1e', '\x85', U+2028 and U+2029. */
  predicate IsLineBreak(c: char)
  {
    var x := c as int;
    (0x0A <= x <= 0x0D) || (0x1C <= x <= 0x1E) || x == 0x85 || x == 0x2028 || x == 0x2029
  }

  /** The characters `str.strip()` removes (those `str.isspace()` accepts):
      '\t'..'\r', '\x1c'..' ', '\x85', '\xa0', U+1680, U+2000..U+200A,
      U+2028, U+2029, U+202F, U+205F and U+3000. */
  predicate IsSpace(c: char)
  {
    var x := c as int;
    || (0x09 <= x <= 0x0D) || (0x1C <= x <= 0x20) || x == 0x85 || x == 0xA0 || x == 0x1680
    || (0x2000 <= x <= 0x200A) || x == 0x2028 || x == 0x2029 || x == 0x202F || x == 0x205F || x == 0x3000
  }

  // ---------------------------------------------------------------------
  // Line numbers

  /** The number of '\n' characters in `text[i..j]`. */
  function NewlinesIn(text: string, i: nat, j: nat): (n: nat)
    requires i <= j <= |text|
    ensures n <= j - i
    decreases j - i
  {
    if i == j then 0 else NewlinesIn(text, i, j - 1) + (if text[j - 1] == '\n' then 1 else 0)
  }

  /** Counting '\n' over a range adds up over any split of the range. */
  lemma {:induction false} NewlinesInSplit(text: string, i: nat, k: nat, j: nat)
    requires i <= k <= j <= |text|
    ensures NewlinesIn(text, i, j) == NewlinesIn(text, i, k) + NewlinesIn(text, k, j)
    decreases j - k
  {
    if k < j {
      NewlinesInSplit(text, i, k, j - 1);
    }
  }

  lemma {:induction false} NewlinesInNone(text: string, i: nat, j: nat)
    requires i <= j <= |text|
    requires forall m :: i <= m < j ==> text[m] != '\n'
    ensures NewlinesIn(text, i, j) == 0
    decreases j - i
  {
    if i < j {
      NewlinesInNone(text, i, j - 1);
    }
  }

  /** `text.count("\n", 0, start) + 1`: the 1-based line number of a match
      starting at offset `start` (Python clamps `start` to the text). It is at
      least 1 and at most one more than the number of '\n' in the text. */
  function LineNumber(text: string, start: nat): (n: nat)
    ensures 1 <= n <= 1 + NewlinesIn(text, 0, |text|)
  {
    var k := Min(start, |text|);
    NewlinesInSplit(text, 0, k, |text|);
    1 + NewlinesIn(text, 0, k)
  }

  /** A match further into the text never gets a smaller line number. */
  lemma LineNumberMonotone(text: string, s1: nat, s2: nat)
    requires s1 <= s2
    ensures LineNumber(text, s1) <= LineNumber(text, s2)
  {
    NewlinesInSplit(text, 0, Min(s1, |text|), Min(s2, |text|));
  }

  // ---------------------------------------------------------------------
  // str.splitlines()

  /** The first line break at or after `i`, or the end of `s`. */
  function BreakFrom(s: string, i: nat): (e: nat)
    requires i <= |s|
    ensures i <= e <= |s|
    ensures e < |s| ==> IsLineBreak(s[e])
    decreases |s| - i
  {
    if i == |s| || IsLineBreak(s[i]) then i else BreakFrom(s, i + 1)
  }

  /** There is no line break between `i` and the first break from `i`. */
  lemma {:induction false} NoBreakBefore(s: string, i: nat)
    requires i <= |s|
    ensures forall j :: i <= j < BreakFrom(s, i) ==> !IsLineBreak(s[j])
    decreases |s| - i
  {
    if i < |s| && !IsLineBreak(s[i]) {
      NoBreakBefore(s, i + 1);
    }
  }

  /** "\r\n" is one break of two characters; every other break is one. */
  function BreakWidth(s: string, e: nat): (w: nat)
    requires e < |s|
    ensures 1 <= w <= 2 && e + w <= |s|
  {
    if s[e] == '\r' && e + 1 < |s| && s[e + 1] == '\n' then 2 else 1
  }

  /** The lines of `s` from offset `i` on, without their terminators; a
      final terminator does not start an empty last line. */
  function LinesFrom(s: string, i: nat): (lines: seq<string>)
    requires i <= |s|
    ensures i < |s| ==> |lines| >= 1
    decreases |s| - i
  {
    if i == |s| then []
    else
      var e := BreakFrom(s, i);
      if e == |s| then [s[i..]] else [s[i..e]] + LinesFrom(s, e + BreakWidth(s, e))
  }

  /** `s.splitlines()`. */
  function SplitLines(s: string): (lines: seq<string>)
    ensures s != [] ==> |lines| >= 1
  {
    LinesFrom(s, 0)
  }

  /** No line holds a line break. */
  lemma {:induction false} LinesFromHaveNoBreaks(s: string, i: nat)
    requires i <= |s|
    ensures forall k, j :: 0 <= k < |LinesFrom(s, i)| && 0 <= j < |LinesFrom(s, i)[k]| ==> !IsLineBreak(LinesFrom(s, i)[k][j])
    decreases |s| - i
  {
    if i < |s| {
      var e := BreakFrom(s, i);
      NoBreakBefore(s, i);
      if e < |s| {
        LinesFromHaveNoBreaks(s, e + BreakWidth(s, e));
      }
    }
  }

  /** No line `splitlines()` returns holds a line break. */
  lemma SplitLinesHaveNoBreaks(s: string)
    ensures forall k, j :: 0 <= k < |SplitLines(s)| && 0 <= j < |SplitLines(s)[k]| ==> !IsLineBreak(SplitLines(s)[k][j])
  {
    LinesFromHaveNoBreaks(s, 0);
  }

  /** `s[a..b]` is a whole line of `s` from offset `i` on: it holds no break,
      it starts at `i` or just after a break, and it ends at a break or at
      the end of `s`. */
  predicate Segment(s: string, i: nat, a: nat, b: nat)
  {
    && i <= a <= b <= |s|
    && (a == i || IsLineBreak(s[a - 1]))
    && (b == |s| || IsLineBreak(s[b]))
    && forall j :: a <= j < b ==> !IsLineBreak(s[j])
  }

  /** `line` is some whole line of `s` from offset `i` on. */
  ghost predicate LineOf(s: string, i: nat, line: string)
  {
    exists a: nat, b: nat :: Segment(s, i, a, b) && line == s[a..b]
  }

  /** Every line from offset `i` is a whole line of `s`. */
  lemma {:induction false} LinesFromAreSegments(s: string, i: nat)
    requires i <= |s|
    ensures forall k :: 0 <= k < |LinesFrom(s, i)| ==> LineOf(s, i, LinesFrom(s, i)[k])
    decreases |s| - i
  {
    if i < |s| {
      var e := BreakFrom(s, i);
      var lines := LinesFrom(s, i);
      LinesFromUnfold(s, i);
      NoBreakBefore(s, i);
      assert Segment(s, i, i, e) && lines[0] == s[i..e];
      if e == |s| {
        assert |lines| == 1;
      } else {
        var r := e + BreakWidth(s, e);
        LinesFromAreSegments(s, r);
        assert IsLineBreak(s[r - 1]);
        forall k | 0 <= k < |lines|
          ensures LineOf(s, i, lines[k])
        {
          if k == 0 {
            assert Segment(s, i, i, e) && lines[0] == s[i..e];
          } else {
            assert lines[k] == LinesFrom(s, r)[k - 1];
            assert LineOf(s, r, LinesFrom(s, r)[k - 1]);
            var a: nat, b: nat :| Segment(s, r, a, b) && LinesFrom(s, r)[k - 1] == s[a..b];
            assert Segment(s, i, a, b);
          }
        }
      }
    } else {
      assert LinesFrom(s, i) == [];
    }
  }

  /** Every line `splitlines()` returns is a whole line of the text. */
  lemma SplitLinesAreSegments(s: string)
    ensures forall k :: 0 <= k < |SplitLines(s)| ==> LineOf(s, 0, SplitLines(s)[k])
  {
    LinesFromAreSegments(s, 0);
  }

  /** The first offset at or after `i` that is not a space, or the end of `s`. */
  function SkipSpaces(s: string, i: nat): (k: nat)
    requires i <= |s|
    ensures i <= k <= |s|
    ensures forall j :: i <= j < k ==> IsSpace(s[j])
    ensures k < |s| ==> !IsSpace(s[k])
    decreases |s| - i
  {
    if i == |s| || !IsSpace(s[i]) then i else SkipSpaces(s, i + 1)
  }

  /** The smallest offset `k >= lo` from which `s[k..j]` is all spaces. */
  function SkipSpacesBack(s: string, lo: nat, j: nat): (k: nat)
    requires lo <= j <= |s|
    ensures lo <= k <= j
    ensures forall m :: k <= m < j ==> IsSpace(s[m])
    ensures k > lo ==> !IsSpace(s[k - 1])
    decreases j
  {
    if j == lo || !IsSpace(s[j - 1]) then j else SkipSpacesBack(s, lo, j - 1)
  }

  /** `r` is the part of `s` from offset `a` with all surrounding spaces removed. */
  predicate IsStripped(s: string, a: nat, r: string)
  {
    && a + |r| <= |s| && r == s[a..a + |r|]
    && (forall j :: 0 <= j < a ==> IsSpace(s[j]))
    && (forall j :: a + |r| <= j < |s| ==> IsSpace(s[j]))
    && (r == [] || (!IsSpace(r[0]) && !IsSpace(r[|r| - 1])))
  }

  /** `r` is `s` with all surrounding spaces removed. */
  ghost predicate StrippedFrom(s: string, r: string)
  {
    exists a :: IsStripped(s, a, r)
  }

  /** `s.strip()`. */
  function Strip(s: string): (r: string)
    ensures StrippedFrom(s, r)
  {
    var a := SkipSpaces(s, 0);
    var b := SkipSpacesBack(s, a, |s|);
    assert IsStripped(s, a, s[a..b]);
    s[a..b]
  }

  // ---------------------------------------------------------------------
  // How the two notions of line relate

  /** The first line from `i` and its break hold at most one '\n', and none
      before the break's last character. */
  lemma FirstBreakCount(text: string, i: nat, e: nat)
    requires i < |text| && e == BreakFrom(text, i) < |text|
    ensures NewlinesIn(text, i, e + BreakWidth(text, e)) <= 1
    ensures BreakWidth(text, e) == 2 ==> NewlinesIn(text, i, e + 1) == 0
  {
    NoBreakBefore(text, i);
    NewlinesInNone(text, i, e);
    assert NewlinesIn(text, i, e + 1) == NewlinesIn(text, i, e) + (if text[e] == '\n' then 1 else 0);
    if BreakWidth(text, e) == 2 {
      assert NewlinesIn(text, i, e + 2) == NewlinesIn(text, i, e + 1) + 1;
    }
  }

  /** The lines from `i` are the line up to the first break, then the
      lines after that break. */
  lemma LinesFromUnfold(text: string, i: nat)
    requires i < |text|
    ensures var e := BreakFrom(text, i);
      && |LinesFrom(text, i)| >= 1
      && LinesFrom(text, i)[0] == text[i..e]
      && (e < |text| ==> LinesFrom(text, i)[1..] == LinesFrom(text, e + BreakWidth(text, e)))
  {
    var e := BreakFrom(text, i);
    if e == |text| {
      assert text[i..e] == text[i..];
    }
  }

  /** An offset in the first line from `i`, or inside its "\r\n" break, has
      no '\n' before it. */
  lemma IndexInFirstLine(text: string, i: nat, s: nat)
    requires i <= s < |text|
    requires s <= BreakFrom(text, i) || s < BreakFrom(text, i) + BreakWidth(text, BreakFrom(text, i))
    ensures NewlinesIn(text, i, s) < |LinesFrom(text, i)|
  {
    var e := BreakFrom(text, i);
    LinesFromUnfold(text, i);
    if s <= e {
      NoBreakBefore(text, i);
      NewlinesInNone(text, i, s);
    } else {
      FirstBreakCount(text, i, e);
    }
  }

  /** Past the first break from `i`, the count and the lines both grow by
      at most one over those from after the break. */
  lemma IndexPastBreak(text: string, i: nat, s: nat)
    requires i <= s < |text|
    requires BreakFrom(text, i) < |text| && s >= BreakFrom(text, i) + BreakWidth(text, BreakFrom(text, i))
    requires var r := BreakFrom(text, i) + BreakWidth(text, BreakFrom(text, i));
      NewlinesIn(text, r, s) < |LinesFrom(text, r)|
    ensures NewlinesIn(text, i, s) < |LinesFrom(text, i)|
  {
    var e := BreakFrom(text, i);
    var r := e + BreakWidth(text, e);
    assert |LinesFrom(text, i)| == 1 + |LinesFrom(text, r)| by {
      LinesFromUnfold(text, i);
    }
    assert NewlinesIn(text, i, r) <= 1 by {
      FirstBreakCount(text, i, e);
    }
    NewlinesInSplit(text, i, r, s);
  }

  /** Counting '\n' from a line start up to an offset inside the text never
      runs past the lines from that start, since every '\n' ends one of them. */
  lemma {:induction false} IndexInLinesFrom(text: string, i: nat, s: nat)
    requires i <= s < |text|
    ensures NewlinesIn(text, i, s) < |LinesFrom(text, i)|
    decreases |text| - i
  {
    var e := BreakFrom(text, i);
    if s <= e || s < e + BreakWidth(text, e) {
      IndexInFirstLine(text, i, s);
    } else {
      IndexInLinesFrom(text, e + BreakWidth(text, e), s);
      IndexPastBreak(text, i, s);
    }
  }

  /** Counting '\n' before an offset inside the text never runs past the
      list `splitlines()` returns. So the lookup guarded in
      `run_static_checks` can only miss for an offset at the very end of the
      text. */
  lemma LineIndexInRange(text: string, s: nat)
    requires s < |text|
    ensures LineNumber(text, s) - 1 < |SplitLines(text)|
  {
    IndexInLinesFrom(text, 0, s);
  }

  /** Only '\n' breaks lines in `text`. */
  predicate NewlinesOnly(text: string)
  {
    forall j :: 0 <= j < |text| && IsLineBreak(text[j]) ==> text[j] == '\n'
  }

  /** `text[a..b]` is the '\n'-delimited line that holds offset `s`. */
  predicate LineAround(text: string, s: nat, a: nat, b: nat)
  {
    && a <= s <= b <= |text|
    && (a == 0 || text[a - 1] == '\n')
    && (b == |text| || text[b] == '\n')
    && forall j :: a <= j < b ==> text[j] != '\n'
  }

  /** Where the '\n'-delimited line holding offset `s` starts. */
  function LineStart(text: string, s: nat): (a: nat)
    requires s <= |text|
    ensures a <= s
    ensures a == 0 || text[a - 1] == '\n'
    ensures forall j :: a <= j < s ==> text[j] != '\n'
    decreases s
  {
    if s == 0 || text[s - 1] == '\n' then s else LineStart(text, s - 1)
  }

  /** Within the first line from a line start `i`, no '\n' has been
      counted and the line around the offset is the first line. */
  lemma FirstLineOfAround(text: string, i: nat, s: nat, a: nat, b: nat)
    requires s < |text|
    requires NewlinesOnly(text)
    requires LineAround(text, s, a, b)
    requires i <= a && s <= BreakFrom(text, i)
    ensures NewlinesIn(text, i, s) == 0 < |LinesFrom(text, i)|
    ensures LinesFrom(text, i)[0] == text[a..b]
  {
    var e := BreakFrom(text, i);
    NoBreakBefore(text, i);
    NewlinesInNone(text, i, s);
    LinesFromUnfold(text, i);
    assert a == i;
    assert b == e;
  }

  /** In a text where '\n' is the only break, the line at index "number of
      '\n' from `i` to `s`" of the lines from a line start `i` is the
      '\n'-delimited line `text[a..b]` around `s`. */
  lemma {:induction false} LineOfAround(text: string, i: nat, s: nat, a: nat, b: nat)
    requires s < |text|
    requires NewlinesOnly(text)
    requires LineAround(text, s, a, b)
    requires i <= a
    ensures NewlinesIn(text, i, s) < |LinesFrom(text, i)|
    ensures LinesFrom(text, i)[NewlinesIn(text, i, s)] == text[a..b]
    decreases |text| - i
  {
    var e := BreakFrom(text, i);
    if s <= e {
      FirstLineOfAround(text, i, s, a, b);
    } else {
      assert text[e] == '\n' && e < a by {
        NextLineStart(text, i, s, a, b);
      }
      LineOfAround(text, e + 1, s, a, b);
      LaterLineOfAround(text, i, s, a, b);
    }
  }

  /** Past the first line from `i`, that line ends in '\n' and the line
      around `s` starts after it. */
  lemma NextLineStart(text: string, i: nat, s: nat, a: nat, b: nat)
    requires s < |text|
    requires NewlinesOnly(text)
    requires LineAround(text, s, a, b)
    requires i <= a && BreakFrom(text, i) < s
    ensures text[BreakFrom(text, i)] == '\n'
    ensures BreakFrom(text, i) < a
  {
    var e := BreakFrom(text, i);
    assert text[e] == '\n';
  }

  /** The step of `LineOfAround`: one '\n' and one line more than from
      just after the first line's '\n'. */
  lemma LaterLineOfAround(text: string, i: nat, s: nat, a: nat, b: nat)
    requires s < |text|
    requires i < |text| && BreakFrom(text, i) < s
    requires text[BreakFrom(text, i)] == '\n'
    requires NewlinesIn(text, BreakFrom(text, i) + 1, s) < |LinesFrom(text, BreakFrom(text, i) + 1)|
    requires a <= b <= |text|
    requires LinesFrom(text, BreakFrom(text, i) + 1)[NewlinesIn(text, BreakFrom(text, i) + 1, s)] == text[a..b]
    ensures NewlinesIn(text, i, s) < |LinesFrom(text, i)|
    ensures LinesFrom(text, i)[NewlinesIn(text, i, s)] == text[a..b]
  {
    var e := BreakFrom(text, i);
    var n := NewlinesIn(text, e + 1, s);
    assert NewlinesIn(text, i, e + 1) == 1 && BreakWidth(text, e) == 1 by {
      NewlineEndsFirstLine(text, i);
    }
    assert NewlinesIn(text, i, s) == n + 1 by {
      NewlinesInSplit(text, i, e + 1, s);
    }
    LaterLine(text, i, n);
  }

  /** Line `n + 1` from `i` is line `n` after the first break from `i`. */
  lemma LaterLine(text: string, i: nat, n: nat)
    requires i < |text| && BreakFrom(text, i) < |text|
    requires n < |LinesFrom(text, BreakFrom(text, i) + BreakWidth(text, BreakFrom(text, i)))|
    ensures var r := BreakFrom(text, i) + BreakWidth(text, BreakFrom(text, i));
      && |LinesFrom(text, i)| == |LinesFrom(text, r)| + 1
      && LinesFrom(text, i)[n + 1] == LinesFrom(text, r)[n]
  {
    LinesFromUnfold(text, i);
    var e := BreakFrom(text, i);
    IndexInTail(LinesFrom(text, i), LinesFrom(text, e + BreakWidth(text, e)), n);
  }

  /** An element of a sequence's tail, seen from the whole sequence. */
  lemma IndexInTail<T>(whole: seq<T>, tail: seq<T>, n: nat)
    requires |whole| >= 1 && whole[1..] == tail && n < |tail|
    ensures |whole| == |tail| + 1 && whole[n + 1] == tail[n]
  {
    assert whole[n + 1] == whole[1..][n];
  }

  /** A first line from `i` ended by '\n' holds exactly that one '\n', and
      its break is one character wide. */
  lemma NewlineEndsFirstLine(text: string, i: nat)
    requires i < |text| && BreakFrom(text, i) < |text|
    requires text[BreakFrom(text, i)] == '\n'
    ensures BreakWidth(text, BreakFrom(text, i)) == 1
    ensures NewlinesIn(text, i, BreakFrom(text, i) + 1) == 1
  {
    NoBreakBefore(text, i);
    NewlinesInNone(text, i, BreakFrom(text, i));
  }

  /** When '\n' is the only line break in the text, the two notions agree:
      the line `splitlines()` gives at the '\n'-counted index is the line that
      holds the match. */
  lemma LinesAgreeOnNewlineText(text: string, s: nat)
    requires s < |text|
    requires NewlinesOnly(text)
    ensures LineNumber(text, s) - 1 < |SplitLines(text)|
    ensures exists a: nat, b: nat :: LineAround(text, s, a, b) && SplitLines(text)[LineNumber(text, s) - 1] == text[a..b]
  {
    var a := LineStart(text, s);
    var b := BreakFrom(text, s);
    NoBreakBefore(text, s);
    assert LineAround(text, s, a, b);
    LineOfAround(text, 0, s, a, b);
  }

  /** A form feed breaks the correspondence (text mode translates '\r' but
      not '\f'): in "a\fb\nc" the match at offset 4 ('c') gets line number
      2, and `splitlines()` puts "b" at index 1. */
  lemma FormFeedShiftsLines()
    ensures SplitLines("a\U{000C}b\nc") == ["a", "b", "c"]
    ensures LineNumber("a\U{000C}b\nc", 4) == 2
  {
    var t := "a\U{000C}b\nc";
    assert BreakFrom(t, 4) == 5;
    assert LinesFrom(t, 4) == [t[4..]] == ["c"];
    assert BreakFrom(t, 2) == 3 && BreakWidth(t, 3) == 1;
    assert t[2..3] == "b" && t[0..1] == "a";
    assert LinesFrom(t, 2) == [t[2..3]] + LinesFrom(t, 4);
    assert BreakFrom(t, 0) == 1 && BreakWidth(t, 1) == 1;
    assert LinesFrom(t, 0) == [t[0..1]] + LinesFrom(t, 2);
    assert SplitLines(t) == LinesFrom(t, 0);
    assert NewlinesIn(t, 0, 4) == 1;
  }

  /** An offset at the very end of a text that ends in '\n' gets a line
      number past the last line `splitlines()` returns. */
  lemma EndOffsetPastLastLine()
    ensures SplitLines("a\n") == ["a"]
    ensures LineNumber("a\n", 2) == 2
  {
    var t := "a\n";
    assert BreakFrom(t, 0) == 1 && BreakWidth(t, 1) == 1;
    assert t[0..1] == "a";
    assert LinesFrom(t, 0) == [t[0..1]] + LinesFrom(t, 2);
    assert SplitLines(t) == LinesFrom(t, 0);
    assert NewlinesIn(t, 0, 2) == 1;
  }
}
