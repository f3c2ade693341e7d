/**
 * The few JavaScript string operations the viewer relies on: `startsWith`,
 * `split('/')` and `join('/')`, the `\s` character class and `trim()`.
 */
module Strings {

  /** `p` is a prefix of `s`. */
  predicate StartsWith(s: string, p: string)
  {
    |p| <= |s| && s[..|p|] == p
  }

  /** The index of the first slash of `s` at or after `lo`, or `|s|` when there is none. */
  function FindSlash(s: string, lo: nat): (i: nat)
    requires lo <= |s|
    ensures lo <= i <= |s|
    ensures i < |s| ==> s[i] == '/'
    ensures forall k :: lo <= k < i ==> s[k] != '/'
    decreases |s| - lo
  {
    if lo == |s| || s[lo] == '/' then lo else FindSlash(s, lo + 1)
  }

  /**
   * `s.split('/')`: the pieces between slashes, empty pieces included, so
   * that there is always at least one piece and one more piece than slashes.
   */
  function Split(s: string): (parts: seq<string>)
    ensures |parts| >= 1
    ensures forall k :: 0 <= k < |parts| ==> '/' !in parts[k]
    ensures ('/' in s) == (|parts| >= 2)
    decreases |s|
  {
    var i := FindSlash(s, 0);
    if i == |s| then [s] else [s[..i]] + Split(s[i + 1..])
  }

  /** `parts.join('/')`; the join of no parts is the empty string. */
  function Join(parts: seq<string>): string
  {
    if |parts| == 0 then ""
    else if |parts| == 1 then parts[0]
    else parts[0] + "/" + Join(parts[1..])
  }

  /** Joining the pieces of a split gives back the string. */
  lemma {:induction false} JoinSplit(s: string)
    ensures Join(Split(s)) == s
    decreases |s|
  {
    var i := FindSlash(s, 0);
    if i < |s| {
      JoinSplit(s[i + 1..]);
      assert s == s[..i] + "/" + s[i + 1..];
    }
  }

  /** A slash-free head, a slash and a tail split into the head and the pieces of the tail. */
  lemma {:induction false} SplitCons(head: string, tail: string)
    requires '/' !in head
    ensures Split(head + "/" + tail) == [head] + Split(tail)
  {
    var s := head + "/" + tail;
    assert s[..|head|] == head;
    assert s[|head|] == '/';
    assert forall k :: 0 <= k < |head| ==> s[k] == head[k];
    assert FindSlash(s, 0) == |head|;
    assert s[|head| + 1..] == tail;
  }

  /** Splitting a join of slash-free pieces gives back the pieces. */
  lemma {:induction false} SplitJoin(parts: seq<string>)
    requires |parts| >= 1
    requires forall k :: 0 <= k < |parts| ==> '/' !in parts[k]
    ensures Split(Join(parts)) == parts
  {
    if |parts| == 1 {
      assert FindSlash(parts[0], 0) == |parts[0]|;
    } else {
      SplitCons(parts[0], Join(parts[1..]));
      SplitJoin(parts[1..]);
      assert [parts[0]] + parts[1..] == parts;
    }
  }

  /** Appending one piece to a non-empty list of pieces appends a slash and the piece. */
  lemma {:induction false} JoinSnoc(parts: seq<string>, x: string)
    requires |parts| >= 1
    ensures Join(parts + [x]) == Join(parts) + "/" + x
  {
    if |parts| > 1 {
      assert (parts + [x])[1..] == parts[1..] + [x];
      JoinSnoc(parts[1..], x);
    }
  }

  /** The directory of `p`: its pieces but the last, joined again with slashes. */
  function DirOf(p: string): string
  {
    var parts := Split(p);
    Join(parts[..|parts| - 1])
  }

  /** The last piece of `p`: the text after its last slash. */
  function LastSegment(p: string): string
  {
    var parts := Split(p);
    parts[|parts| - 1]
  }

  /** The pieces of the directory of a path with a slash are the pieces of the path but the last. */
  lemma {:induction false} SplitOfDirOf(p: string)
    requires |Split(p)| >= 2
    ensures Split(DirOf(p)) == Split(p)[..|Split(p)| - 1]
  {
    SplitJoin(Split(p)[..|Split(p)| - 1]);
  }

  /**
   * A path is its directory, a slash and its last segment; a path without
   * a slash has the empty directory and is its own last segment.
   */
  lemma {:induction false} DirOfLastSegment(p: string)
    ensures '/' !in LastSegment(p)
    ensures '/' in p ==> p == DirOf(p) + "/" + LastSegment(p)
    ensures '/' !in p ==> DirOf(p) == "" && LastSegment(p) == p
  {
    var parts := Split(p);
    JoinSplit(p);
    if '/' in p {
      JoinSnoc(parts[..|parts| - 1], parts[|parts| - 1]);
      assert parts[..|parts| - 1] + [parts[|parts| - 1]] == parts;
    }
  }

  /** The pieces of the directory of a path with a slash, plus one more piece, join to the directory, a slash and that piece. */
  lemma {:induction false} ReplaceLast(p: string, x: string)
    requires '/' in p
    ensures Join(Split(p)[..|Split(p)| - 1] + [x]) == DirOf(p) + "/" + x
  {
    JoinSnoc(Split(p)[..|Split(p)| - 1], x);
  }

  /** Appending a slash and a slash-free segment is undone by DirOf and LastSegment. */
  lemma {:induction false} AppendSegment(dir: string, seg: string)
    requires '/' !in seg
    ensures Split(dir + "/" + seg) == Split(dir) + [seg]
    ensures DirOf(dir + "/" + seg) == dir
    ensures LastSegment(dir + "/" + seg) == seg
  {
    var parts := Split(dir);
    JoinSplit(dir);
    JoinSnoc(parts, seg);
    SplitJoin(parts + [seg]);
    assert (parts + [seg])[..|parts|] == parts;
  }

  /** The line terminators of ECMAScript: LF, CR, LINE SEPARATOR, PARAGRAPH SEPARATOR. */
  predicate IsLineTerminator(c: char)
  {
    c == '\n' || c == '\r' || c == '\U{2028}' || c == '\U{2029}'
  }

  /** The regular-expression class `\s`, which is also what `trim()` removes. */
  predicate IsJsSpace(c: char)
  {
    || c == '\t' || c == '\U{000B}' || c == '\U{000C}' || c == ' '
    || c == '\U{00A0}' || c == '\U{1680}' || '\U{2000}' <= c <= '\U{200A}'
    || c == '\U{202F}' || c == '\U{205F}' || c == '\U{3000}' || c == '\U{FEFF}'
    || IsLineTerminator(c)
  }

  /** No white space at either end. */
  predicate IsTrimmed(s: string)
  {
    s == [] || (!IsJsSpace(s[0]) && !IsJsSpace(s[|s| - 1]))
  }

  /** The first position at or after `lo` that is not white space. */
  function SkipSpaces(s: string, lo: nat): (n: nat)
    requires lo <= |s|
    ensures lo <= n <= |s|
    ensures forall k :: lo <= k < n ==> IsJsSpace(s[k])
    ensures n == |s| || !IsJsSpace(s[n])
    decreases |s| - lo
  {
    if lo < |s| && IsJsSpace(s[lo]) then SkipSpaces(s, lo + 1) else lo
  }

  /** `s` without its leading white space. */
  function TrimStart(s: string): string
  {
    s[SkipSpaces(s, 0)..]
  }

  /** The end of `s[..hi]` once the white space that closes it is cut off. */
  function CutSpaces(s: string, hi: nat): (n: nat)
    requires hi <= |s|
    ensures n <= hi
    ensures forall k :: n <= k < hi ==> IsJsSpace(s[k])
    ensures n == 0 || !IsJsSpace(s[n - 1])
  {
    if hi > 0 && IsJsSpace(s[hi - 1]) then CutSpaces(s, hi - 1) else hi
  }

  /** `s` without its trailing white space. */
  function TrimEnd(s: string): string
  {
    s[..CutSpaces(s, |s|)]
  }

  /**
   * `s.trim()`: the white space at both ends removed, and nothing else: the
   * result is the stretch of `s` between a white-space prefix and a
   * white-space suffix.
   */
  function Trim(s: string): (r: string)
    ensures IsTrimmed(r)
    ensures IsTrimmed(s) ==> r == s
    ensures forall c :: c in r ==> c in s
    ensures exists i, j ::
      && 0 <= i <= j <= |s| && r == s[i..j]
      && (forall k :: 0 <= k < i ==> IsJsSpace(s[k]))
      && (forall k :: j <= k < |s| ==> IsJsSpace(s[k]))
  {
    var i := SkipSpaces(s, 0);
    var t := s[i..];
    var j := i + CutSpaces(t, |t|);
    assert t[..j - i] == s[i..j];
    assert forall k :: j <= k < |s| ==> s[k] == t[k - i];
    TrimEnd(TrimStart(s))
  }

  /** White space in front of a stretch of a string makes no difference to its trimming. */
  lemma {:induction false} TrimSliceDropsSpaces(s: string, lo: nat, p: nat, hi: nat)
    requires lo <= p <= hi <= |s|
    requires forall k :: lo <= k < p ==> IsJsSpace(s[k])
    ensures Trim(s[lo..hi]) == Trim(s[p..hi])
  {
    var u := s[lo..hi];
    var t := s[p..hi];
    var n := SkipSpaces(t, 0);
    assert forall k :: 0 <= k < |u| ==> u[k] == s[lo + k];
    assert forall k :: 0 <= k < |t| ==> t[k] == s[p + k];
    assert SkipSpaces(u, 0) == p - lo + n;
    assert TrimStart(u) == TrimStart(t) by {
      assert forall k :: 0 <= k < |t| - n ==> TrimStart(u)[k] == s[p + n + k];
    }
  }
}
