/**
 * Python's `str.splitlines()` (no `keepends`), as used by the paginator to
 * cut the OCR text into lines.
 *
 * A line ends at any of Python's line boundaries: LF, CR, the pair CR LF
 * (one boundary), VT, FF, the file/group/record separators 0x1C-0x1E,
 * NEL (0x85), LINE SEPARATOR (0x2028) and PARAGRAPH SEPARATOR (0x2029).
 * A boundary at the very end of the text does not start a further, empty
 * line, and the empty text has no lines at all.
 */
module LineSplit {

  /** The characters Python's `str.splitlines` treats as line boundaries. */
  predicate IsLineBreak(c: char) {
    var n := c as int;
    n == 0x0A || n == 0x0B || n == 0x0C || n == 0x0D ||
    n == 0x1C || n == 0x1D || n == 0x1E || n == 0x85 ||
    n == 0x2028 || n == 0x2029
  }

  /** A line as `splitlines` produces it: no boundary character inside. */
  predicate NoBreaks(s: string) {
    forall j :: 0 <= j < |s| ==> !IsLineBreak(s[j])
  }

  /** Index of the first boundary character of `s`, or `|s|` if there is none. */
  function FirstBreak(s: string): (r: nat)
    ensures r <= |s|
    ensures r < |s| ==> IsLineBreak(s[r])
  {
    if s == [] then 0
    else if IsLineBreak(s[0]) then 0
    else 1 + FirstBreak(s[1..])
  }

  /** `FirstBreak` finds the first boundary: there is none before it. */
  lemma {:induction false} FirstBreakIsFirst(s: string, j: nat)
    requires j < FirstBreak(s)
    ensures !IsLineBreak(s[j])
  {
    if j > 0 {
      FirstBreakIsFirst(s[1..], j - 1);
    }
  }

  /** Length of the boundary starting at `i`: CR LF counts as one boundary of two characters. */
  function TerminatorLength(s: string, i: nat): (n: nat)
    requires i < |s|
    ensures 1 <= n <= 2 && n <= |s| - i
    ensures n == 2 <==> s[i] == '\r' && i + 1 < |s| && s[i + 1] == '\n'
  {
    if s[i] == '\r' && i + 1 < |s| && s[i + 1] == '\n' then 2 else 1
  }

  /** `s.splitlines()`. */
  function SplitLines(s: string): (lines: seq<string>)
    decreases |s|
  {
    if s == [] then []
    else
      var i := FirstBreak(s);
      if i == |s| then [s]
      else [s[..i]] + SplitLines(s[i + TerminatorLength(s, i)..])
  }

  /** Concatenation of the lines, each followed by one LF. */
  function JoinTerminated(lines: seq<string>): (s: string) {
    if lines == [] then "" else lines[0] + "\n" + JoinTerminated(lines[1..])
  }

  /** No line produced by `SplitLines` contains a boundary character. */
  lemma {:induction false} SplitLinesHaveNoBreaks(s: string)
    ensures forall k :: 0 <= k < |SplitLines(s)| ==> NoBreaks(SplitLines(s)[k])
    decreases |s|
  {
    if s != [] {
      var i := FirstBreak(s);
      forall j | 0 <= j < i ensures !IsLineBreak(s[j]) {
        FirstBreakIsFirst(s, j);
      }
      if i < |s| {
        SplitLinesHaveNoBreaks(s[i + TerminatorLength(s, i)..]);
      }
    }
  }

  /** The text has no lines exactly when it is empty. */
  lemma SplitLinesEmptyIff(s: string)
    ensures SplitLines(s) == [] <==> s == []
  {
  }

  /** A break-free line followed by LF splits off as the first line, whatever comes after. */
  lemma SplitLinesCons(line: string, rest: string)
    requires NoBreaks(line)
    ensures SplitLines(line + "\n" + rest) == [line] + SplitLines(rest)
  {
    var s := line + "\n" + rest;
    var i := FirstBreak(s);
    assert s[|line|] == '\n';
    if i > |line| {
      FirstBreakIsFirst(s, |line|);
    }
    assert TerminatorLength(s, i) == 1;
    assert s[..i] == line;
    assert s[i + 1..] == rest;
  }

  /** Round trip: LF-terminated break-free lines split back into exactly those lines. */
  lemma SplitJoinTerminated(lines: seq<string>)
    requires forall k :: 0 <= k < |lines| ==> NoBreaks(lines[k])
    ensures SplitLines(JoinTerminated(lines)) == lines
  {
    SplitLinesPrefix(lines, "");
    assert JoinTerminated(lines) + "" == JoinTerminated(lines);
  }

  lemma ConsAppend<T>(xs: seq<T>, ys: seq<T>)
    requires xs != []
    ensures xs + ys == [xs[0]] + (xs[1..] + ys)
  {
    assert xs == [xs[0]] + xs[1..];
  }

  lemma JoinTerminatedCons(lines: seq<string>, rest: string)
    requires lines != []
    ensures JoinTerminated(lines) + rest == lines[0] + "\n" + (JoinTerminated(lines[1..]) + rest)
  {
  }

  /** LF-terminated break-free lines in front of any text split off as its first lines. */
  lemma {:induction false} SplitLinesPrefix(lines: seq<string>, rest: string)
    requires forall k :: 0 <= k < |lines| ==> NoBreaks(lines[k])
    ensures SplitLines(JoinTerminated(lines) + rest) == lines + SplitLines(rest)
  {
    if lines != [] {
      var tail := JoinTerminated(lines[1..]);
      var s := JoinTerminated(lines) + rest;
      var afterFirst := SplitLines(tail + rest);
      ConsAppend(lines, SplitLines(rest));
      assert s == lines[0] + "\n" + (tail + rest) by {
        JoinTerminatedCons(lines, rest);
      }
      assert SplitLines(s) == [lines[0]] + afterFirst by {
        SplitLinesCons(lines[0], tail + rest);
      }
      assert afterFirst == lines[1..] + SplitLines(rest) by {
        SplitLinesPrefix(lines[1..], rest);
      }
    } else {
      assert JoinTerminated(lines) + rest == rest;
    }
  }

  /** A non-empty break-free text is a single line; the final boundary adds no empty line. */
  lemma SplitLinesSingle(line: string)
    requires NoBreaks(line) && line != []
    ensures SplitLines(line) == [line]
    ensures SplitLines(line + "\n") == [line]
  {
    SplitLinesCons(line, "");
    assert line + "\n" + "" == line + "\n";
  }
}
