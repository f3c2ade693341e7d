/**
 * `extractTitleFromMarkdown` (scripts/script.js): the first match of the
 * multiline pattern `^#\s+(.+)$`, trimmed, or no title. `^` holds at the
 * start and after a line terminator, `\s` is the whole ECMAScript white
 * space class (line terminators included, so `\s+` may cross a line end),
 * `.` is any character but a line terminator, and `$` holds at the end and
 * before a line terminator.
 */
module MarkdownTitle {
  import opened Wrappers
  import opened Strings

  /** Where `^` matches under the `m` flag. */
  predicate LineStart(s: string, i: nat)
    requires i <= |s|
  {
    i == 0 || IsLineTerminator(s[i - 1])
  }

  /** Length of the longest run of `\s` starting at `i`: what greedy `\s+` first tries. */
  function SpaceRun(s: string, i: nat): (n: nat)
    requires i <= |s|
    ensures i + n <= |s|
    ensures forall k :: i <= k < i + n ==> IsJsSpace(s[k])
    ensures i + n == |s| || !IsJsSpace(s[i + n])
    decreases |s| - i
  {
    if i < |s| && IsJsSpace(s[i]) then 1 + SpaceRun(s, i + 1) else 0
  }

  /** Where greedy `.+` started at `i` stops; `$` always holds there. */
  function LineEnd(s: string, i: nat): (e: nat)
    requires i <= |s|
    ensures i <= e <= |s|
    ensures forall k :: i <= k < e ==> !IsLineTerminator(s[k])
    ensures e == |s| || IsLineTerminator(s[e])
    decreases |s| - i
  {
    if i < |s| && !IsLineTerminator(s[i]) then LineEnd(s, i + 1) else i
  }

  /** The last position in `[lo, hi)` holding a character `.` accepts. */
  function LastNonTerminator(s: string, lo: nat, hi: nat): (j: Option<nat>)
    requires lo <= hi <= |s|
    ensures j.Some? ==> lo <= j.value < hi && !IsLineTerminator(s[j.value])
    ensures j.Some? ==> forall k :: j.value < k < hi ==> IsLineTerminator(s[k])
    ensures j.None? ==> forall k :: lo <= k < hi ==> IsLineTerminator(s[k])
    decreases hi - lo
  {
    if lo == hi then None
    else if !IsLineTerminator(s[hi - 1]) then Some(hi - 1)
    else LastNonTerminator(s, lo, hi - 1)
  }

  /**
   * Where the group `(.+)` starts when `#\s+(.+)$` matches at the `#` at
   * `i`. Greedy `\s+` takes the whole run of white space; if that leaves
   * no character for `.+` (the run reaches the end), it backtracks to the
   * last white-space character that is not a line terminator.
   */
  function GroupStart(s: string, i: nat): (j: Option<nat>)
    requires i < |s| && s[i] == '#'
    ensures j.Some? ==> i + 2 <= j.value < |s| && !IsLineTerminator(s[j.value])
    ensures j.Some? ==> forall k :: i + 1 <= k < j.value ==> IsJsSpace(s[k])
  {
    var n := SpaceRun(s, i + 1);
    if n == 0 then None
    else if i + 1 + n < |s| then Some(i + 1 + n)
    else LastNonTerminator(s, i + 2, |s|)
  }

  /** The captured group of a match at `i`, if the pattern matches there. */
  function CaptureAt(s: string, i: nat): Option<string>
    requires i < |s| && s[i] == '#'
  {
    match GroupStart(s, i)
    case None => None
    case Some(j) => Some(s[j..LineEnd(s, j)])
  }

  /** Whether the pattern matches at position `i`. */
  predicate MatchesAt(s: string, i: nat)
    requires i < |s|
  {
    LineStart(s, i) && s[i] == '#' && GroupStart(s, i).Some?
  }

  /** The group of the leftmost match at or after `i`. */
  function FirstCapture(s: string, i: nat): Option<string>
    requires i <= |s|
    decreases |s| - i
  {
    if i == |s| then None
    else if MatchesAt(s, i) then CaptureAt(s, i)
    else FirstCapture(s, i + 1)
  }

  /** `extractTitleFromMarkdown(content)`; `None` stands for `null`. */
  function ExtractTitle(content: string): (title: Option<string>)
    ensures title.Some? ==> IsTrimmed(title.value)
  {
    match FirstCapture(content, 0)
    case None => None
    case Some(g) => Some(Trim(g))
  }

  /** A title comes from one line: it holds no line terminator. */
  lemma {:induction false} TitleOnOneLine(s: string)
    ensures ExtractTitle(s).Some? ==> forall c :: c in ExtractTitle(s).value ==> !IsLineTerminator(c)
  {
    FirstCaptureOneLine(s, 0);
  }

  lemma {:induction false} FirstCaptureOneLine(s: string, i: nat)
    requires i <= |s|
    ensures FirstCapture(s, i).Some? ==> forall c :: c in FirstCapture(s, i).value ==> !IsLineTerminator(c)
    decreases |s| - i
  {
    if i < |s| && !MatchesAt(s, i) {
      FirstCaptureOneLine(s, i + 1);
    }
  }

  /** A line that opens with `#` and a white-space character: the only place a match can start. */
  predicate HeadingLine(s: string, i: nat)
    requires i < |s|
  {
    LineStart(s, i) && s[i] == '#' && i + 1 < |s| && IsJsSpace(s[i + 1])
  }

  /** No line opening with `#` and white space (lines opening with `##` included) means no title. */
  lemma {:induction false} NoHeadingLineNoTitle(s: string)
    requires forall i :: 0 <= i < |s| ==> !HeadingLine(s, i)
    ensures ExtractTitle(s) == None
  {
    NoMatchFrom(s, 0);
  }

  lemma {:induction false} NoMatchFrom(s: string, i: nat)
    requires i <= |s|
    requires forall k :: i <= k < |s| ==> !HeadingLine(s, k)
    ensures FirstCapture(s, i) == None
    decreases |s| - i
  {
    if i < |s| {
      assert !HeadingLine(s, i);
      NoMatchFrom(s, i + 1);
    }
  }

  /**
   * A line opening with `#`, white space and a character `.` accepts
   * always yields a title (this one or one of an earlier line).
   */
  lemma {:induction false} HeadingLineGivesTitle(s: string, i: nat, from: nat)
    requires from <= i < |s| - 2
    requires HeadingLine(s, i) && !IsLineTerminator(s[i + 2])
    ensures FirstCapture(s, from).Some?
    decreases i - from
  {
    if from < i && !MatchesAt(s, from) {
      HeadingLineGivesTitle(s, i, from + 1);
    }
  }

  /** A match can only start on a heading line. */
  lemma {:induction false} MatchIsHeading(s: string, i: nat)
    requires i < |s|
    ensures MatchesAt(s, i) ==> HeadingLine(s, i)
  {
    if MatchesAt(s, i) {
      assert SpaceRun(s, i + 1) > 0;
    }
  }

  /** With no heading line before a match, the search finds that match. */
  lemma {:induction false} CaptureOfFirstMatch(s: string, from: nat, i: nat)
    requires from <= i < |s| && MatchesAt(s, i)
    requires forall k :: from <= k < i ==> !HeadingLine(s, k)
    ensures FirstCapture(s, from) == CaptureAt(s, i)
    decreases i - from
  {
    if from < i {
      MatchIsHeading(s, from);
      CaptureOfFirstMatch(s, from + 1, i);
    }
  }

  /**
   * On a heading line whose rest holds a character that is not white space,
   * `\s+` stops before that character, inside the line: the group starts
   * after white space only and runs to the same line end.
   */
  lemma {:induction false} GroupOnHeadingLine(s: string, i: nat, q: nat)
    requires i + 2 <= |s| && HeadingLine(s, i)
    requires i + 2 <= q < LineEnd(s, i + 2) && !IsJsSpace(s[q])
    ensures var p := i + 1 + SpaceRun(s, i + 1);
      && i + 2 <= p <= q
      && GroupStart(s, i) == Some(p)
      && LineEnd(s, p) == LineEnd(s, i + 2)
      && (forall k :: i + 2 <= k < p ==> IsJsSpace(s[k]))
  {
    var p := i + 1 + SpaceRun(s, i + 1);
    assert p <= q;
    assert LineEnd(s, p) <= LineEnd(s, i + 2);
  }

  /** The search's group is `s[p..e]`, and only white space lies between `lo` and `p`. */
  ghost predicate CapturedAfterSpaces(s: string, lo: nat, p: nat, e: nat)
  {
    && lo <= p <= e <= |s|
    && (forall k :: lo <= k < p ==> IsJsSpace(s[k]))
    && FirstCapture(s, 0) == Some(s[p..e])
  }

  /** The group of the heading line at `i` starts at `p`, after white space only, and runs to that line's end. */
  ghost predicate HeadingCaptured(s: string, i: nat, p: nat)
  {
    i + 2 <= |s| && CapturedAfterSpaces(s, i + 2, p, LineEnd(s, i + 2))
  }

  /** The first heading line, with a character that is not white space in its rest, gives the search's group. */
  lemma {:induction false} FirstHeadingCapture(s: string, i: nat, q: nat)
    requires i + 2 <= |s| && HeadingLine(s, i)
    requires i + 2 <= q < LineEnd(s, i + 2) && !IsJsSpace(s[q])
    requires forall k :: 0 <= k < i ==> !HeadingLine(s, k)
    ensures exists p :: HeadingCaptured(s, i, p)
  {
    GroupOnHeadingLine(s, i, q);
    CaptureOfFirstMatch(s, 0, i);
    assert HeadingCaptured(s, i, i + 1 + SpaceRun(s, i + 1));
  }

  /** A group found after white space that starts at `lo` gives the trimmed stretch from `lo` as title. */
  lemma {:induction false} TitleFromCapture(s: string, lo: nat, p: nat, e: nat)
    requires CapturedAfterSpaces(s, lo, p, e)
    ensures ExtractTitle(s) == Some(Trim(s[lo..e]))
  {
    TrimSliceDropsSpaces(s, lo, p, e);
  }

  /** The title a heading line gives when its rest holds the character at `q`, which is not white space. */
  lemma {:induction false} HeadingTitleAt(s: string, i: nat, q: nat)
    requires i + 2 <= |s| && HeadingLine(s, i)
    requires i + 2 <= q < LineEnd(s, i + 2) && !IsJsSpace(s[q])
    requires forall k :: 0 <= k < i ==> !HeadingLine(s, k)
    ensures ExtractTitle(s) == Some(Trim(s[i + 2..LineEnd(s, i + 2)]))
  {
    FirstHeadingCapture(s, i, q);
    var p :| HeadingCaptured(s, i, p);
    TitleFromCapture(s, i + 2, p, LineEnd(s, i + 2));
  }

  /**
   * The title is taken from the first heading line: when the rest of that
   * line after `#` and one white-space character holds a character that is
   * not white space, the title is that rest, trimmed.
   */
  lemma {:induction false} FirstHeadingTitle(s: string, i: nat)
    requires i + 2 <= |s| && HeadingLine(s, i)
    requires exists q :: i + 2 <= q < LineEnd(s, i + 2) && !IsJsSpace(s[q])
    requires forall k :: 0 <= k < i ==> !HeadingLine(s, k)
    ensures ExtractTitle(s) == Some(Trim(s[i + 2..LineEnd(s, i + 2)]))
  {
    var q :| i + 2 <= q < LineEnd(s, i + 2) && !IsJsSpace(s[q]);
    HeadingTitleAt(s, i, q);
  }

  /** The title of a document whose first line is a level-one heading. */
  lemma {:induction false} FirstLineTitle(text: string, rest: string)
    requires text != [] && !IsJsSpace(text[0])
    requires forall c :: c in text ==> !IsLineTerminator(c)
    ensures ExtractTitle("# " + text + "\n" + rest) == Some(Trim(text))
  {
    var s := "# " + text + "\n" + rest;
    assert s[0] == '#' && s[1] == ' ' && s[2] == text[0];
    assert SpaceRun(s, 2) == 0;
    assert SpaceRun(s, 1) == 1;
    assert MatchesAt(s, 0);
    assert LineEnd(s, 2) == 2 + |text| by {
      assert s[2 + |text|] == '\n';
      forall k | 2 <= k < 2 + |text| ensures !IsLineTerminator(s[k]) {
        assert s[k] == text[k - 2];
      }
      LineEndAt(s, 2, 2 + |text|);
    }
    assert s[2..2 + |text|] == text;
  }

  lemma {:induction false} LineEndAt(s: string, i: nat, e: nat)
    requires i <= e < |s| && IsLineTerminator(s[e])
    requires forall k :: i <= k < e ==> !IsLineTerminator(s[k])
    ensures LineEnd(s, i) == e
    decreases e - i
  {
    if i < e {
      LineEndAt(s, i + 1, e);
    }
  }

  /**
   * `\s+` crosses a line end: a line holding only `#` takes the next line
   * as the title.
   */
  lemma {:induction false} BareHashTakesNextLine(text: string)
    requires text != [] && !IsJsSpace(text[0])
    requires forall c :: c in text ==> !IsLineTerminator(c)
    ensures ExtractTitle("#\n" + text) == Some(Trim(text))
  {
    var s := "#\n" + text;
    assert s[0] == '#' && s[1] == '\n' && s[2] == text[0];
    assert SpaceRun(s, 2) == 0;
    assert SpaceRun(s, 1) == 1;
    assert MatchesAt(s, 0);
    assert LineEnd(s, 2) == |s| by {
      forall k | 2 <= k < |s| ensures !IsLineTerminator(s[k]) {
        assert s[k] == text[k - 2];
      }
      LineEndToEnd(s, 2);
    }
    assert s[2..|s|] == text;
    assert GroupStart(s, 0) == Some(2);
    assert CaptureAt(s, 0) == Some(text);
    assert FirstCapture(s, 0) == Some(text);
  }

  lemma {:induction false} LineEndToEnd(s: string, i: nat)
    requires i <= |s|
    requires forall k :: i <= k < |s| ==> !IsLineTerminator(s[k])
    ensures LineEnd(s, i) == |s|
    decreases |s| - i
  {
    if i < |s| {
      LineEndToEnd(s, i + 1);
    }
  }

  /** A heading of white space only gives the empty title, not `null`. */
  lemma {:induction false} BlankHeadingGivesEmptyTitle()
    ensures ExtractTitle("#  ") == Some("")
  {
    var s := "#  ";
    assert SpaceRun(s, 3) == 0;
    assert SpaceRun(s, 1) == 2;
    assert LastNonTerminator(s, 2, 3) == Some(2);
    assert MatchesAt(s, 0);
    assert LineEnd(s, 2) == 3;
    assert Trim(" ") == "";
  }

  /** A single line opening with `##` is a lower-level heading: no title. */
  lemma {:induction false} SubheadingGivesNoTitle(text: string)
    requires forall c :: c in text ==> !IsLineTerminator(c)
    ensures ExtractTitle("## " + text) == None
  {
    var s := "## " + text;
    forall i | 0 <= i < |s| ensures !HeadingLine(s, i) {
      if i > 0 {
        if i > 3 {
          assert s[i - 1] == text[i - 4];
        }
        assert !IsLineTerminator(s[i - 1]);
      } else {
        assert s[1] == '#';
      }
    }
    NoHeadingLineNoTitle(s);
  }
}
