/**
 * `resolveRelativePath` (scripts/script.js): a link or image reference plus
 * the path of the document that contains it gives a repository path. It
 * works on prefixes only (`./`, a run of `../`, `/`, anything else) and does
 * no dot-segment removal inside the string.
 */
module PathResolver {
  import opened Strings

  /** `n` copies of `../`. */
  function ParentRefs(n: nat): string
  {
    if n == 0 then "" else "../" + ParentRefs(n - 1)
  }

  /**
   * What the `../` loop computes from a directory and a reference: each
   * leading `../` is stripped and drops one trailing segment of the directory.
   */
  function ClimbParents(dir: string, path: string): (string, string)
    decreases |path|
  {
    if StartsWith(path, "../") then ClimbParents(DirOf(dir), path[3..]) else (dir, path)
  }

  /** The resolution rules, first match wins. */
  function Resolve(ref: string, base: string): string
  {
    var baseDir := DirOf(base);
    if StartsWith(ref, "./") then baseDir + "/" + ref[2..]
    else if StartsWith(ref, "../") then
      var (dir, rest) := ClimbParents(baseDir, ref);
      dir + "/" + rest
    else if StartsWith(ref, "/") then ref[1..]
    else if baseDir == "" then ref
    else baseDir + "/" + ref
  }

  /** The script's resolver, with its loop over leading `../`. */
  method ResolveRelativePath(relativePath: string, baseFilePath: string) returns (resolved: string)
    ensures resolved == Resolve(relativePath, baseFilePath)
  {
    var baseDir := DirOf(baseFilePath);
    if StartsWith(relativePath, "./") {
      resolved := baseDir + "/" + relativePath[2..];
    } else if StartsWith(relativePath, "../") {
      var currentDir, path := baseDir, relativePath;
      while StartsWith(path, "../")
        invariant ClimbParents(currentDir, path) == ClimbParents(baseDir, relativePath)
        decreases |path|
      {
        currentDir := DirOf(currentDir);
        path := path[3..];
      }
      resolved := currentDir + "/" + path;
    } else if StartsWith(relativePath, "/") {
      resolved := relativePath[1..];
    } else if baseDir != "" {
      resolved := baseDir + "/" + relativePath;
    } else {
      resolved := relativePath;
    }
  }

  /** `dir` with its last `k` segments dropped, one DirOf at a time. */
  function Ancestor(dir: string, k: nat): string
    decreases k
  {
    if k == 0 then dir else Ancestor(DirOf(dir), k - 1)
  }

  /** The empty directory has no segment to drop: it stays empty. */
  lemma {:induction false} AncestorOfEmpty(k: nat)
    ensures Ancestor("", k) == ""
  {
    assert Split("") == [""];
    assert DirOf("") == "";
    if k > 0 {
      AncestorOfEmpty(k - 1);
    }
  }

  /** The join of `parts` without its last `k` pieces, or the empty string when no piece is left. */
  function DropLast(parts: seq<string>, k: nat): string
  {
    if k < |parts| then Join(parts[..|parts| - k]) else ""
  }

  /** Dropping `k` pieces is dropping the last piece, then `k - 1` more. */
  lemma {:induction false} DropLastStep(parts: seq<string>, k: nat)
    requires |parts| >= 2 && k >= 1
    ensures DropLast(parts, k) == DropLast(parts[..|parts| - 1], k - 1)
  {
    var up := parts[..|parts| - 1];
    if k < |parts| {
      assert up[..|up| - (k - 1)] == parts[..|parts| - k];
    }
  }

  /** Dropping no segment is dropping no piece: the split joins back to the directory. */
  lemma {:induction false} AncestorZero(dir: string)
    ensures Ancestor(dir, 0) == DropLast(Split(dir), 0)
  {
    var parts := Split(dir);
    assert parts[..|parts|] == parts;
    JoinSplit(dir);
  }

  /** A directory without a slash is emptied by the first segment dropped. */
  lemma {:induction false} AncestorOfSingle(dir: string, k: nat)
    requires k >= 1 && |Split(dir)| == 1
    ensures Ancestor(dir, k) == ""
  {
    assert DirOf(dir) == "";
    AncestorOfEmpty(k - 1);
  }

  /**
   * Dropping `k` segments from a directory keeps the first `n - k` of its
   * `n` pieces when that many remain, and clamps at the empty directory.
   */
  lemma {:induction false} AncestorOfSplit(dir: string, k: nat)
    ensures Ancestor(dir, k) == DropLast(Split(dir), k)
    decreases k
  {
    var parts := Split(dir);
    if k == 0 {
      AncestorZero(dir);
    } else if |parts| == 1 {
      AncestorOfSingle(dir, k);
    } else {
      SplitOfDirOf(dir);
      AncestorOfSplit(DirOf(dir), k - 1);
      DropLastStep(parts, k);
      assert Ancestor(dir, k) == Ancestor(DirOf(dir), k - 1);
    }
  }

  /** The loop strips exactly the leading `../` and drops one segment for each. */
  lemma {:induction false} ClimbStrips(dir: string, k: nat, rest: string)
    requires !StartsWith(rest, "../")
    ensures ClimbParents(dir, ParentRefs(k) + rest) == (Ancestor(dir, k), rest)
    decreases k
  {
    var path := ParentRefs(k) + rest;
    if k == 0 {
      assert path == rest;
    } else {
      assert path == "../" + (ParentRefs(k - 1) + rest);
      assert path[..3] == "../";
      assert path[3..] == ParentRefs(k - 1) + rest;
      ClimbStrips(DirOf(dir), k - 1, rest);
    }
  }

  /** The segments of the directory of `base` that survive `k` leading `../`. */
  function KeptDir(base: string, k: nat): string
  {
    DropLast(Split(base), k + 1)
  }

  /**
   * `k` leading `../` (k >= 1) drop `k` segments of the directory of `base`;
   * with too many of them the directory is empty and the result starts with `/`.
   */
  lemma {:induction false} ResolveParentRefs(k: nat, rest: string, base: string)
    requires k >= 1
    requires !StartsWith(rest, "../")
    ensures Resolve(ParentRefs(k) + rest, base) == KeptDir(base, k) + "/" + rest
  {
    var ref := ParentRefs(k) + rest;
    assert ref[..3] == "../" && ref[1] == '.' by {
      assert ref == "../" + (ParentRefs(k - 1) + rest);
    }
    ResolveClimb(ref, base);
    ClimbStrips(DirOf(base), k, rest);
    assert Ancestor(DirOf(base), k) == Ancestor(base, k + 1);
    AncestorOfSplit(base, k + 1);
  }

  /** A reference starting with `../` resolves to what the climb from the base's directory leaves. */
  lemma {:induction false} ResolveClimb(ref: string, base: string)
    requires StartsWith(ref, "../")
    ensures var (dir, rest) := ClimbParents(DirOf(base), ref);
      Resolve(ref, base) == dir + "/" + rest
  {
    assert ref[1] == '.';
  }

  /** A reference starting with `/` is the rest of it, whatever the base. */
  lemma {:induction false} ResolveRootRelative(rest: string, base: string, otherBase: string)
    ensures Resolve("/" + rest, base) == rest
    ensures Resolve("/" + rest, base) == Resolve("/" + rest, otherBase)
  {
    var ref := "/" + rest;
    assert ref[0] == '/' && ref[..1] == "/" && ref[1..] == rest;
  }

  /**
   * `./rest` replaces the last segment of `base` by `rest`; under a base
   * without a slash it gives `/rest`, with a leading slash.
   */
  lemma {:induction false} ResolveDotSlash(rest: string, base: string)
    ensures '/' in base ==> Resolve("./" + rest, base) == Join(Split(base)[..|Split(base)| - 1] + [rest])
    ensures '/' !in base ==> Resolve("./" + rest, base) == "/" + rest
  {
    var ref := "./" + rest;
    assert ref[..2] == "./" && ref[2..] == rest;
    assert Resolve(ref, base) == DirOf(base) + "/" + rest;
    if '/' in base {
      ReplaceLast(base, rest);
    } else {
      DirOfLastSegment(base);
    }
  }

  /**
   * Any other reference replaces the last segment of `base`, except that
   * an empty directory leaves the reference as it is.
   */
  lemma {:induction false} ResolvePlain(ref: string, base: string)
    requires !StartsWith(ref, "./") && !StartsWith(ref, "../") && !StartsWith(ref, "/")
    ensures DirOf(base) != "" ==> Resolve(ref, base) == Join(Split(base)[..|Split(base)| - 1] + [ref])
    ensures DirOf(base) == "" ==> Resolve(ref, base) == ref
  {
    DirOfLastSegment(base);
    if DirOf(base) != "" {
      ReplaceLast(base, ref);
    }
  }

  /** The segments of a path two directories deep. */
  lemma {:induction false} SplitTwoDeep(a: string, b: string, file: string)
    requires '/' !in a && '/' !in b && '/' !in file
    ensures Split(a + "/" + b + "/" + file) == [a, b, file]
  {
    assert Split(a) == [a];
    AppendSegment(a, b);
    AppendSegment(a + "/" + b, file);
  }

  /** One `../` from a document at `a/b/file` climbs to `a`. */
  lemma {:induction false} ResolveOneParentUp(a: string, b: string, file: string, x: string)
    requires '/' !in a && '/' !in b && '/' !in file
    requires !StartsWith(x, "../")
    ensures Resolve("../" + x, a + "/" + b + "/" + file) == a + "/" + x
  {
    SplitTwoDeep(a, b, file);
    assert ParentRefs(1) + x == "../" + x;
    ResolveParentRefs(1, x, a + "/" + b + "/" + file);
    assert [a, b, file][..1] == [a];
  }

  /** Two `../` from a document at `a/b/file` reach the empty directory: the result starts with `/`. */
  lemma {:induction false} ResolveTwoParentsUp(a: string, b: string, file: string, x: string)
    requires '/' !in a && '/' !in b && '/' !in file
    requires !StartsWith(x, "../")
    ensures Resolve("../../" + x, a + "/" + b + "/" + file) == "/" + x
  {
    SplitTwoDeep(a, b, file);
    assert ParentRefs(2) + x == "../../" + x;
    ResolveParentRefs(2, x, a + "/" + b + "/" + file);
  }

  /** A third `../` from a document at `a/b/file` clamps at the empty directory instead of failing. */
  lemma {:induction false} ResolveThreeParentsUp(a: string, b: string, file: string, x: string)
    requires '/' !in a && '/' !in b && '/' !in file
    requires !StartsWith(x, "../")
    ensures Resolve("../../../" + x, a + "/" + b + "/" + file) == "/" + x
  {
    SplitTwoDeep(a, b, file);
    assert ParentRefs(3) + x == "../../../" + x;
    ResolveParentRefs(3, x, a + "/" + b + "/" + file);
  }
}
