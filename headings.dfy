/**
 * Heading anchors (`processHeadings` in scripts/script.js): a heading
 * without an id gets one made from its text by lowering it, turning every
 * run of characters outside `\w` and U+0400..U+04FF into one `-`, and
 * trimming `-` from both ends. Lowering is a parameter applied character by
 * character.
 */
module Headings {

  /** `[\wЀ-ӿ]`: ASCII letters, digits, `_` and the Cyrillic block. */
  predicate IsWordChar(c: char)
  {
    || 'A' <= c <= 'Z' || 'a' <= c <= 'z' || '0' <= c <= '9' || c == '_'
    || '\U{0400}' <= c <= '\U{04FF}'
  }

  /** The text lower-cased, one character at a time by the given mapping. */
  function Lowered(text: string, lower: char -> char): string
  {
    seq(|text|, k requires 0 <= k < |text| => lower(text[k]))
  }

  /** The word characters of `s`, in order. */
  function WordChars(s: string): string
  {
    if s == [] then [] else (if IsWordChar(s[0]) then [s[0]] else []) + WordChars(s[1..])
  }

  lemma {:induction false} WordCharsConcat(a: string, b: string)
    ensures WordChars(a + b) == WordChars(a) + WordChars(b)
  {
    if a == [] {
      assert a + b == b;
    } else {
      var h := if IsWordChar(a[0]) then [a[0]] else [];
      assert (a + b)[0] == a[0];
      assert (a + b)[1..] == a[1..] + b;
      assert WordChars(a + b) == h + WordChars(a[1..] + b);
      WordCharsConcat(a[1..], b);
      assert h + (WordChars(a[1..]) + WordChars(b)) == (h + WordChars(a[1..])) + WordChars(b);
    }
  }

  /** A word character of `s` is a character of `s`, and every word character of `s` is kept. */
  lemma {:induction false} WordCharsMembers(s: string, c: char)
    ensures c in WordChars(s) ==> c in s
    ensures IsWordChar(c) && c in s ==> c in WordChars(s)
  {
    if s != [] {
      WordCharsMembers(s[1..], c);
      if c in s && c != s[0] {
        assert c in s[1..];
      }
    }
  }

  /** `s` with its leading run of non-word characters dropped. */
  function SkipNonWord(s: string): (r: string)
    ensures |r| <= |s|
  {
    if s != [] && !IsWordChar(s[0]) then SkipNonWord(s[1..]) else s
  }

  /** What is skipped holds no word character, and what is left starts with one. */
  lemma {:induction false} SkipNonWordFacts(s: string)
    ensures var r := SkipNonWord(s);
      && (r == [] || IsWordChar(r[0]))
      && WordChars(r) == WordChars(s)
  {
    if s != [] && !IsWordChar(s[0]) {
      SkipNonWordFacts(s[1..]);
    }
  }

  /** Each maximal run of non-word characters becomes one `-`. */
  function CollapseNonWord(s: string): string
    decreases |s|
  {
    if s == [] then []
    else if IsWordChar(s[0]) then [s[0]] + CollapseNonWord(s[1..])
    else "-" + CollapseNonWord(SkipNonWord(s[1..]))
  }

  /** Putting a `-` or a word character in front keeps a string hyphen-separated unless it makes `--`. */
  lemma HyphenSeparatedCons(c: char, t: string)
    requires c == '-' || IsWordChar(c)
    requires HyphenSeparated(t)
    requires t != [] && c == '-' ==> t[0] != '-'
    ensures HyphenSeparated([c] + t)
  {
    var r := [c] + t;
    assert forall k :: 1 <= k < |r| ==> r[k] == t[k - 1];
  }

  /**
   * The collapsed string is hyphen-separated, keeps exactly the word
   * characters in order, is empty only for the empty string, and starts
   * with `-` exactly when the string starts with a non-word character.
   */
  lemma {:induction false} CollapseNonWordShape(s: string)
    ensures var r := CollapseNonWord(s);
      && HyphenSeparated(r)
      && WordChars(r) == WordChars(s)
      && (r == []) == (s == [])
      && (r != [] ==> (r[0] == '-') == !IsWordChar(s[0]))
    decreases |s|
  {
    if s != [] {
      var r := CollapseNonWord(s);
      if IsWordChar(s[0]) {
        var t := CollapseNonWord(s[1..]);
        CollapseNonWordShape(s[1..]);
        HyphenSeparatedCons(s[0], t);
        assert r[0] == s[0] && r[1..] == t;
      } else {
        var u := SkipNonWord(s[1..]);
        var t := CollapseNonWord(u);
        SkipNonWordFacts(s[1..]);
        CollapseNonWordShape(u);
        HyphenSeparatedCons('-', t);
        assert r[0] == '-' && r[1..] == t;
      }
    }
  }

  /** Every character of `s` is a word character. */
  predicate AllWord(s: string)
  {
    forall k :: 0 <= k < |s| ==> IsWordChar(s[k])
  }

  /** No character of `s` is a word character. */
  predicate NoWord(s: string)
  {
    forall k :: 0 <= k < |s| ==> !IsWordChar(s[k])
  }

  /** Text made of word characters only is left as it is. */
  lemma {:induction false} CollapseAllWord(w: string)
    requires AllWord(w)
    ensures CollapseNonWord(w) == w
    decreases |w|
  {
    if w != [] {
      CollapseAllWord(w[1..]);
      assert [w[0]] + w[1..] == w;
    }
  }

  /** Skipping a run of non-word characters stops right at the word character after it. */
  lemma {:induction false} SkipNonWordRun(n: string, y: string)
    requires NoWord(n)
    requires y == [] || IsWordChar(y[0])
    ensures SkipNonWord(n + y) == y
    decreases |n|
  {
    if n == [] {
      assert n + y == y;
    } else {
      assert (n + y)[0] == n[0];
      assert (n + y)[1..] == n[1..] + y;
      SkipNonWordRun(n[1..], y);
    }
  }

  /** Skipping stops inside `a` when `a` ends with a word character, keeping that character last. */
  lemma {:induction false} SkipNonWordKeepsLast(a: string)
    requires a != [] && IsWordChar(a[|a| - 1])
    ensures SkipNonWord(a) != [] && SkipNonWord(a)[|SkipNonWord(a)| - 1] == a[|a| - 1]
    decreases |a|
  {
    if !IsWordChar(a[0]) {
      SkipNonWordKeepsLast(a[1..]);
    }
  }

  /** Once skipping stops inside `a`, what follows `a` is carried along untouched. */
  lemma {:induction false} SkipNonWordAppend(a: string, b: string)
    requires SkipNonWord(a) != []
    ensures SkipNonWord(a + b) == SkipNonWord(a) + b
    decreases |a|
  {
    assert (a + b)[0] == a[0];
    if !IsWordChar(a[0]) {
      assert (a + b)[1..] == a[1..] + b;
      SkipNonWordAppend(a[1..], b);
    }
  }

  /**
   * Collapsing distributes over a cut after a word character: no run of
   * non-word characters spans the cut.
   */
  lemma {:induction false} CollapseConcat(x: string, y: string)
    requires x == [] || IsWordChar(x[|x| - 1])
    ensures CollapseNonWord(x + y) == CollapseNonWord(x) + CollapseNonWord(y)
    decreases |x|, 1
  {
    if x == [] {
      assert x + y == y;
    } else if IsWordChar(x[0]) {
      CollapseConcatAfterWord(x, y);
    } else {
      CollapseConcatAfterRun(x, y);
    }
  }

  /** `CollapseConcat` when `x` opens with a word character, which is kept in front. */
  lemma {:induction false} CollapseConcatAfterWord(x: string, y: string)
    requires x != [] && IsWordChar(x[0]) && IsWordChar(x[|x| - 1])
    ensures CollapseNonWord(x + y) == CollapseNonWord(x) + CollapseNonWord(y)
    decreases |x|, 0
  {
    var h := [x[0]];
    var t := x[1..];
    assert (x + y)[0] == x[0];
    assert (x + y)[1..] == t + y;
    assert CollapseNonWord(x + y) == h + CollapseNonWord(t + y);
    CollapseConcat(t, y);
    assert h + (CollapseNonWord(t) + CollapseNonWord(y)) == (h + CollapseNonWord(t)) + CollapseNonWord(y);
  }

  /** `CollapseConcat` when `x` opens with a non-word character: the run is skipped inside `x`. */
  lemma {:induction false} CollapseConcatAfterRun(x: string, y: string)
    requires x != [] && !IsWordChar(x[0]) && IsWordChar(x[|x| - 1])
    ensures CollapseNonWord(x + y) == CollapseNonWord(x) + CollapseNonWord(y)
    decreases |x|, 0
  {
    var u := SkipNonWord(x[1..]);
    SkipNonWordKeepsLast(x[1..]);
    SkipNonWordAppend(x[1..], y);
    assert (x + y)[0] == x[0];
    assert (x + y)[1..] == x[1..] + y;
    assert CollapseNonWord(x + y) == "-" + CollapseNonWord(u + y);
    CollapseConcat(u, y);
    assert "-" + (CollapseNonWord(u) + CollapseNonWord(y)) == ("-" + CollapseNonWord(u)) + CollapseNonWord(y);
  }

  /** A whole run of non-word characters before a word character (or the end) becomes one `-`. */
  lemma {:induction false} CollapseRun(n: string, y: string)
    requires n != [] && NoWord(n)
    requires y == [] || IsWordChar(y[0])
    ensures CollapseNonWord(n + y) == "-" + CollapseNonWord(y)
  {
    assert (n + y)[0] == n[0];
    assert (n + y)[1..] == n[1..] + y;
    SkipNonWordRun(n[1..], y);
  }

  /**
   * Each maximal run of non-word characters becomes exactly one `-`, in its
   * place: `x`, the run `n`, and `y` collapse to the collapse of `x`, one
   * `-` and the collapse of `y`.
   */
  lemma {:induction false} CollapseSeparates(x: string, n: string, y: string)
    requires x == [] || IsWordChar(x[|x| - 1])
    requires n != [] && NoWord(n)
    requires y == [] || IsWordChar(y[0])
    ensures CollapseNonWord(x + n + y) == CollapseNonWord(x) + "-" + CollapseNonWord(y)
  {
    assert x + n + y == x + (n + y);
    CollapseConcat(x, n + y);
    CollapseRun(n, y);
  }

  /** A collapse of text ending with a word character ends with that character. */
  lemma {:induction false} CollapseKeepsLast(s: string)
    requires s != [] && IsWordChar(s[|s| - 1])
    ensures CollapseNonWord(s) != [] && CollapseNonWord(s)[|CollapseNonWord(s)| - 1] == s[|s| - 1]
    decreases |s|
  {
    if IsWordChar(s[0]) {
      if |s| > 1 {
        CollapseKeepsLast(s[1..]);
      }
    } else {
      SkipNonWordKeepsLast(s[1..]);
      CollapseKeepsLast(SkipNonWord(s[1..]));
    }
  }

  /** The first position at or after `lo` that is not a `-`. */
  function SkipHyphens(s: string, lo: nat): (n: nat)
    requires lo <= |s|
    ensures lo <= n <= |s|
    ensures forall k :: lo <= k < n ==> s[k] == '-'
    ensures n == |s| || s[n] != '-'
    decreases |s| - lo
  {
    if lo < |s| && s[lo] == '-' then SkipHyphens(s, lo + 1) else lo
  }

  /** The end of `s[lo..hi]` once the `-` that close it are cut off; it never passes `lo`. */
  function CutHyphens(s: string, lo: nat, hi: nat): (n: nat)
    requires lo <= hi <= |s|
    ensures lo <= n <= hi
    ensures forall k :: n <= k < hi ==> s[k] == '-'
    ensures n == lo || s[n - 1] != '-'
  {
    if hi > lo && s[hi - 1] == '-' then CutHyphens(s, lo, hi - 1) else hi
  }

  /**
   * The leading and the trailing run of `-` removed, both in one pass of a
   * pattern with two alternatives: an id made only of `-` becomes empty.
   */
  function TrimHyphens(s: string): string
  {
    var lo := SkipHyphens(s, 0);
    s[lo..CutHyphens(s, lo, |s|)]
  }

  /** Hyphens carry no word characters. */
  lemma {:induction false} WordCharsOfHyphens(s: string)
    requires forall k :: 0 <= k < |s| ==> s[k] == '-'
    ensures WordChars(s) == []
  {
    if s != [] {
      WordCharsOfHyphens(s[1..]);
    }
  }

  /** Only `-` and word characters, with no `--`. */
  ghost predicate HyphenSeparated(s: string)
  {
    && (forall k :: 0 <= k < |s| ==> s[k] == '-' || IsWordChar(s[k]))
    && (forall i, j :: 0 <= i < j < |s| && j == i + 1 ==> s[i] != '-' || s[j] != '-')
  }

  /** A slice of a hyphen-separated string is hyphen-separated. */
  lemma {:induction false} SliceHyphenSeparated(s: string, lo: nat, hi: nat)
    requires lo <= hi <= |s|
    requires HyphenSeparated(s)
    ensures HyphenSeparated(s[lo..hi])
  {
    assert forall k :: 0 <= k < hi - lo ==> s[lo..hi][k] == s[lo + k];
  }

  /** Cutting hyphens off both ends keeps the word characters. */
  lemma {:induction false} TrimHyphensWords(s: string)
    ensures WordChars(TrimHyphens(s)) == WordChars(s)
  {
    var a := SkipHyphens(s, 0);
    var b := CutHyphens(s, a, |s|);
    assert s == s[..a] + (s[a..b] + s[b..]);
    WordCharsOfHyphens(s[..a]);
    WordCharsOfHyphens(s[b..]);
    WordCharsConcat(s[a..b], s[b..]);
    WordCharsConcat(s[..a], s[a..b] + s[b..]);
  }

  /** Cutting hyphens off both ends of a hyphen-separated string leaves no hyphen at either end. */
  lemma {:induction false} TrimHyphensShape(s: string)
    requires HyphenSeparated(s)
    ensures var id := TrimHyphens(s);
      && HyphenSeparated(id)
      && (id == [] || (id[0] != '-' && id[|id| - 1] != '-'))
  {
    var a := SkipHyphens(s, 0);
    var b := CutHyphens(s, a, |s|);
    SliceHyphenSeparated(s, a, b);
  }

  /** The id given to a heading. */
  function Slug(text: string, lower: char -> char): string
  {
    TrimHyphens(CollapseNonWord(Lowered(text, lower)))
  }

  /**
   * An id has only `-` and word characters, no `--`, no `-` at either end,
   * and exactly the word characters of the lowered text, in order.
   */
  lemma {:induction false} SlugShape(text: string, lower: char -> char)
    ensures var id := Slug(text, lower);
      && HyphenSeparated(id)
      && (id == [] || (id[0] != '-' && id[|id| - 1] != '-'))
      && WordChars(id) == WordChars(Lowered(text, lower))
  {
    var collapsed := CollapseNonWord(Lowered(text, lower));
    CollapseNonWordShape(Lowered(text, lower));
    TrimHyphensWords(collapsed);
    TrimHyphensShape(collapsed);
  }

  /** Text that is not `-` at either end loses nothing to the trimming of `-`. */
  lemma {:induction false} TrimHyphensNoEnds(z: string)
    requires z != [] && z[0] != '-' && z[|z| - 1] != '-'
    ensures TrimHyphens(z) == z
  {
    assert SkipHyphens(z, 0) == 0;
    assert CutHyphens(z, 0, |z|) == |z|;
  }

  /** Every character of `s` is a `-`. */
  predicate AllHyphens(s: string)
  {
    forall k :: 0 <= k < |s| ==> s[k] == '-'
  }

  /**
   * Trimming removes exactly the two end runs of `-`: whatever lies between
   * them, interior `-` included, is kept as it is.
   */
  lemma {:induction false} TrimHyphensEnds(h1: string, z: string, h2: string)
    requires AllHyphens(h1) && AllHyphens(h2)
    requires z == [] || (z[0] != '-' && z[|z| - 1] != '-')
    ensures TrimHyphens(h1 + z + h2) == z
  {
    var s := h1 + z + h2;
    var a := SkipHyphens(s, 0);
    if z == [] {
      assert forall k :: 0 <= k < |s| ==> s[k] == '-' by {
        assert forall k :: |h1| <= k < |s| ==> s[k] == h2[k - |h1|];
      }
      assert a == |s|;
    } else {
      assert s[|h1|] == z[0];
      assert forall k :: 0 <= k < |h1| ==> s[k] == h1[k];
      assert a == |h1|;
      var e := |h1| + |z|;
      assert s[e - 1] == z[|z| - 1];
      assert forall k :: e <= k < |s| ==> s[k] == h2[k - e];
      assert CutHyphens(s, a, |s|) == e;
      assert s[a..e] == z;
    }
  }

  /** A run of non-word characters alone collapses to one `-`, and nothing to nothing. */
  lemma {:induction false} CollapseNoWord(n: string)
    requires NoWord(n)
    ensures CollapseNonWord(n) == if n == [] then [] else "-"
  {
    if n != [] {
      assert n + [] == n;
      CollapseRun(n, []);
    }
  }

  /** A run of non-word characters after a word character collapses to one `-` of its own, if any. */
  lemma {:induction false} CollapseTrailing(z: string, n2: string)
    requires NoWord(n2)
    requires z != [] && IsWordChar(z[|z| - 1])
    ensures CollapseNonWord(z + n2) == CollapseNonWord(z) + (if n2 == [] then [] else "-")
  {
    CollapseConcat(z, n2);
    CollapseNoWord(n2);
  }

  /** A run of non-word characters in front of a word character collapses to one `-` of its own, if any. */
  lemma {:induction false} CollapseLeading(n1: string, w: string)
    requires NoWord(n1)
    requires w != [] && IsWordChar(w[0])
    ensures CollapseNonWord(n1 + w) == (if n1 == [] then [] else "-") + CollapseNonWord(w)
  {
    if n1 == [] {
      assert n1 + w == w;
    } else {
      CollapseRun(n1, w);
    }
  }

  /**
   * A word-bounded middle between two runs of non-word characters, each
   * possibly empty, collapses to the collapse of the middle with at most a
   * `-` on either side.
   */
  lemma {:induction false} CollapsePadded(n1: string, z: string, n2: string)
    requires NoWord(n1) && NoWord(n2)
    requires z != [] && IsWordChar(z[0]) && IsWordChar(z[|z| - 1])
    ensures exists h1, h2 ::
      && AllHyphens(h1) && AllHyphens(h2)
      && CollapseNonWord(n1 + z + n2) == h1 + CollapseNonWord(z) + h2
  {
    var h1: string := if n1 == [] then [] else "-";
    var h2: string := if n2 == [] then [] else "-";
    CollapseTrailing(z, n2);
    assert (z + n2)[0] == z[0];
    CollapseLeading(n1, z + n2);
    assert n1 + z + n2 == n1 + (z + n2);
    assert h1 + (CollapseNonWord(z) + h2) == h1 + CollapseNonWord(z) + h2;
    assert AllHyphens(h1) && AllHyphens(h2);
  }

  /**
   * A word-bounded middle between two runs of non-word characters, each
   * possibly empty, collapses and trims to the collapse of the middle.
   */
  lemma {:induction false} TrimCollapsePadded(n1: string, z: string, n2: string)
    requires NoWord(n1) && NoWord(n2)
    requires z != [] && IsWordChar(z[0]) && IsWordChar(z[|z| - 1])
    ensures TrimHyphens(CollapseNonWord(n1 + z + n2)) == CollapseNonWord(z)
  {
    CollapsePadded(n1, z, n2);
    var h1, h2 :|
      && AllHyphens(h1) && AllHyphens(h2)
      && CollapseNonWord(n1 + z + n2) == h1 + CollapseNonWord(z) + h2;
    CollapseNonWordShape(z);
    CollapseKeepsLast(z);
    TrimHyphensEnds(h1, CollapseNonWord(z), h2);
  }

  /**
   * The id of a heading whose lowered text is a run of non-word characters,
   * a word-bounded middle and another such run (each run possibly empty) is
   * the collapse of the middle: the end runs leave no trace.
   */
  lemma {:induction false} SlugOfPadded(text: string, lower: char -> char, n1: string, z: string, n2: string)
    requires Lowered(text, lower) == n1 + z + n2
    requires NoWord(n1) && NoWord(n2)
    requires z == [] || (IsWordChar(z[0]) && IsWordChar(z[|z| - 1]))
    ensures Slug(text, lower) == CollapseNonWord(z)
  {
    var low := n1 + z + n2;
    if z == [] {
      assert low == n1 + n2;
      assert NoWord(low) by {
        assert forall k :: |n1| <= k < |low| ==> low[k] == n2[k - |n1|];
      }
      CollapseNoWord(low);
      var c := CollapseNonWord(low);
      assert c == c + [] + [];
      TrimHyphensEnds(c, [], []);
    } else {
      TrimCollapsePadded(n1, z, n2);
    }
  }

  /** Lowered text that starts and ends with a word character needs no trimming: its id is its collapse. */
  lemma {:induction false} SlugOfUntrimmed(text: string, lower: char -> char)
    requires var low := Lowered(text, lower);
      low != [] && IsWordChar(low[0]) && IsWordChar(low[|low| - 1])
    ensures Slug(text, lower) == CollapseNonWord(Lowered(text, lower))
  {
    var low := Lowered(text, lower);
    CollapseNonWordShape(low);
    CollapseKeepsLast(low);
    TrimHyphensNoEnds(CollapseNonWord(low));
  }

  /** Lowered text made of word characters only is its own id. */
  lemma {:induction false} SlugOfWords(text: string, lower: char -> char)
    requires AllWord(Lowered(text, lower))
    ensures Slug(text, lower) == Lowered(text, lower)
  {
    var low := Lowered(text, lower);
    CollapseAllWord(low);
    if low != [] {
      SlugOfUntrimmed(text, lower);
    }
  }

  /**
   * The `-` of an id stand exactly where the runs of non-word characters
   * stood: two word-bounded parts around one such run give the id of the
   * first part, one `-`, and the id of the second.
   */
  lemma {:induction false} SlugSeparates(text: string, lower: char -> char, x: string, n: string, y: string)
    requires Lowered(text, lower) == x + n + y
    requires x != [] && IsWordChar(x[0]) && IsWordChar(x[|x| - 1])
    requires n != [] && NoWord(n)
    requires y != [] && IsWordChar(y[0]) && IsWordChar(y[|y| - 1])
    ensures Slug(text, lower) == CollapseNonWord(x) + "-" + CollapseNonWord(y)
  {
    var low := Lowered(text, lower);
    assert low[0] == x[0];
    assert low[|low| - 1] == y[|y| - 1];
    SlugOfUntrimmed(text, lower);
    CollapseSeparates(x, n, y);
  }

  /** The id is empty exactly when the lowered text has no word character. */
  lemma {:induction false} SlugEmptyIff(text: string, lower: char -> char)
    ensures Slug(text, lower) == [] <==> WordChars(Lowered(text, lower)) == []
  {
    var id := Slug(text, lower);
    SlugShape(text, lower);
    if id != [] {
      assert IsWordChar(id[0]);
      assert WordChars(id) != [];
    }
  }

  /** Every character of the id other than `-` is the lowering of a character of the text. */
  lemma {:induction false} SlugCharsAreLowered(text: string, lower: char -> char)
    ensures forall k :: 0 <= k < |Slug(text, lower)| && Slug(text, lower)[k] != '-' ==>
      exists j :: 0 <= j < |text| && Slug(text, lower)[k] == lower(text[j])
  {
    var id := Slug(text, lower);
    var low := Lowered(text, lower);
    SlugShape(text, lower);
    forall k | 0 <= k < |id| && id[k] != '-'
      ensures exists j :: 0 <= j < |text| && id[k] == lower(text[j])
    {
      WordCharsMembers(id, id[k]);
      WordCharsMembers(low, id[k]);
      var j :| 0 <= j < |low| && low[j] == id[k];
      assert id[k] == lower(text[j]);
    }
  }

  /** A heading element: its `id` (empty when it has none) and its text content. */
  datatype Heading = Heading(id: string, text: string)

  /** What `processHeadings` does to one heading. */
  function AssignId(h: Heading, lower: char -> char): Heading
  {
    if h.id == "" then h.(id := Slug(h.text, lower)) else h
  }

  /** An id a heading already has is never replaced, and the text is never touched. */
  lemma {:induction false} AssignIdKeepsExplicitId(h: Heading, lower: char -> char)
    ensures AssignId(h, lower).text == h.text
    ensures h.id != "" ==> AssignId(h, lower) == h
  {
  }

  /** Processing the headings a second time changes nothing. */
  lemma {:induction false} AssignIdIdempotent(h: Heading, lower: char -> char)
    ensures AssignId(AssignId(h, lower), lower) == AssignId(h, lower)
  {
  }

  /** `processHeadings(container)` over the headings of the container, in document order. */
  method ProcessHeadings(headings: array<Heading>, lower: char -> char)
    modifies headings
    ensures forall k :: 0 <= k < headings.Length ==> headings[k] == AssignId(old(headings[k]), lower)
  {
    for i := 0 to headings.Length
      invariant forall k :: 0 <= k < i ==> headings[k] == AssignId(old(headings[k]), lower)
      invariant forall k :: i <= k < headings.Length ==> headings[k] == old(headings[k])
    {
      var h := headings[i];
      if h.id == "" {
        headings[i] := h.(id := Slug(h.text, lower));
      }
      assert headings[i] == AssignId(h, lower);
    }
  }
}
