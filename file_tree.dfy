/**
 * The navigation tree of the viewer (`fileTree`, `addFileToTree` and the
 * README title update in scripts/script.js): a map from repository path
 * to a document node, seeded with the README root, which only ever grows.
 */
module FileTree {
  import opened Wrappers
  import opened Strings

  /** A document node; `children` are the paths linked under it. */
  datatype Node = Node(path: string, name: string, title: string, children: set<string>)

  type Tree = map<string, Node>

  /** The entry document, always the root of the tree. */
  const Root: string := "README.md"

  /** The title the root shows until the README has been fetched ("Loading..."). */
  const LoadingTitle: string := "Загрузка..."

  /** The tree as the page starts: the README root and nothing else. */
  function InitialTree(): Tree
  {
    map[Root := Node(Root, "README", LoadingTitle, {})]
  }

  /** JavaScript truthiness of a string that may be `null`. */
  predicate Truthy(s: Option<string>)
  {
    s.Some? && s.value != ""
  }

  /** The tree invariant: the root is present, every node is stored under its own path, and every child is a node. */
  predicate Valid(t: Tree)
  {
    && Root in t
    && forall p :: p in t ==> t[p].path == p && t[p].children <= t.Keys
  }

  lemma {:induction false} InitialTreeValid()
    ensures Valid(InitialTree())
    ensures InitialTree()[Root].title == LoadingTitle
  {
  }

  /** `.md` occurs nowhere in `s`. */
  predicate NoMd(s: string)
  {
    |s| < 3 || (s[..3] != ".md" && NoMd(s[1..]))
  }

  /**
   * A string replace of `.md` by nothing: only the first occurrence,
   * wherever it is, is removed, and a string without one is unchanged.
   */
  function RemoveFirstMd(s: string): (r: string)
    ensures |r| == |s| || |r| == |s| - 3
    ensures forall c :: c in r ==> c in s
    ensures NoMd(s) ==> r == s
  {
    if |s| < 3 then s
    else if s[..3] == ".md" then s[3..]
    else [s[0]] + RemoveFirstMd(s[1..])
  }

  /**
   * The first `.md` is the one removed: when `a` and the `.m` after it hold
   * no `.md`, the `.md` after `a` goes and whatever follows it stays.
   */
  lemma {:induction false} RemoveFirstMdFirst(a: string, b: string)
    requires NoMd(a + ".m")
    ensures RemoveFirstMd(a + ".md" + b) == a + b
  {
    var s := a + ".md" + b;
    if a == [] {
      assert s == ".md" + b;
      assert s[..3] == ".md" && s[3..] == b;
    } else {
      assert s[..3] == (a + ".m")[..3];
      assert (a + ".m")[1..] == a[1..] + ".m";
      assert s[1..] == a[1..] + ".md" + b;
      RemoveFirstMdFirst(a[1..], b);
      assert a + b == [a[0]] + (a[1..] + b);
    }
  }

  /** A name without `.md` inside loses exactly the `.md` suffix. */
  lemma {:induction false} RemoveFirstMdSuffix(name: string)
    requires NoMd(name)
    ensures RemoveFirstMd(name + ".md") == name
  {
    var s := name + ".md";
    if name == [] {
      assert s == ".md";
    } else {
      if |name| >= 3 {
        assert s[..3] == name[..3];
      } else if |name| == 1 {
        assert s[1] == '.' && s[2] == 'm';
      } else {
        assert s[2] == '.';
      }
      assert s[1..] == name[1..] + ".md";
      RemoveFirstMdSuffix(name[1..]);
    }
  }

  /** Every underscore and every hyphen replaced by a space. */
  function Spaced(s: string): (r: string)
    ensures |r| == |s|
    ensures '_' !in r && '-' !in r
    ensures forall k :: 0 <= k < |s| && (s[k] == '_' || s[k] == '-') ==> r[k] == ' '
    ensures forall k :: 0 <= k < |s| && s[k] != '_' && s[k] != '-' ==> r[k] == s[k]
  {
    seq(|s|, k requires 0 <= k < |s| => if s[k] == '_' || s[k] == '-' then ' ' else s[k])
  }

  /** The small letters `toUpperCase` is modelled on: `a`-`z`, `а`-`я` and `ѐ`-`џ`. */
  predicate IsLowerLetter(c: char)
  {
    'a' <= c <= 'z' || '\U{0430}' <= c <= '\U{044F}' || '\U{0450}' <= c <= '\U{045F}'
  }

  /**
   * `up` is the capital of the small letter `lo`: the letter at the same
   * place in the capital alphabet (`A`-`Z`, `А`-`Я`, `Ѐ`-`Џ`).
   */
  predicate CapitalOf(lo: char, up: char)
  {
    || ('a' <= lo <= 'z' && up as int - 'A' as int == lo as int - 'a' as int)
    || ('\U{0430}' <= lo <= '\U{044F}' && up as int - '\U{0410}' as int == lo as int - '\U{0430}' as int)
    || ('\U{0450}' <= lo <= '\U{045F}' && up as int - '\U{0400}' as int == lo as int - '\U{0450}' as int)
  }

  /** `toUpperCase` of one character: a small letter becomes its capital, anything else stays. */
  function ToUpper(c: char): (u: char)
    ensures IsLowerLetter(c) ==> CapitalOf(c, u)
    ensures !IsLowerLetter(c) ==> u == c
    ensures !IsLowerLetter(u)
  {
    if 'a' <= c <= 'z' then (c as int - 32) as char
    else if '\U{0430}' <= c <= '\U{044F}' then (c as int - 32) as char
    else if '\U{0450}' <= c <= '\U{045F}' then (c as int - 80) as char
    else c
  }

  /**
   * The first character upper-cased, the rest unchanged: a small first
   * letter becomes its capital, and the result never starts with a small
   * letter.
   */
  function Capitalized(s: string): (r: string)
    ensures |r| == |s|
    ensures s != [] ==> r[1..] == s[1..]
    ensures s != [] && IsLowerLetter(s[0]) ==> CapitalOf(s[0], r[0])
    ensures s != [] && !IsLowerLetter(s[0]) ==> r[0] == s[0]
    ensures r == [] || !IsLowerLetter(r[0])
  {
    if s == [] then [] else [ToUpper(s[0])] + s[1..]
  }

  /** Capitalizing twice is capitalizing once. */
  lemma {:induction false} CapitalizedIdempotent(s: string)
    ensures Capitalized(Capitalized(s)) == Capitalized(s)
  {
    if s != [] {
      var r := Capitalized(s);
      assert [r[0]] + r[1..] == r;
    }
  }

  /** The display name `addFileToTree` derives from the last segment of a path. */
  function FormatName(filePath: string): (name: string)
    ensures '_' !in name && '-' !in name && '/' !in name
    ensures |name| <= |LastSegment(filePath)|
  {
    DirOfLastSegment(filePath);
    Capitalized(Spaced(RemoveFirstMd(LastSegment(filePath))))
  }

  /**
   * A document `dir/name.md` whose name has no other `.md` is shown as its
   * name with underscores and hyphens turned into spaces and the first
   * letter in upper case.
   */
  lemma {:induction false} FormatNameOfDocument(dir: string, name: string)
    requires '/' !in name && NoMd(name)
    ensures FormatName(dir + "/" + name + ".md") == Capitalized(Spaced(name))
  {
    assert dir + "/" + name + ".md" == dir + "/" + (name + ".md");
    AppendSegment(dir, name + ".md");
    RemoveFirstMdSuffix(name);
  }

  /** A top-level document `name.md`, such as `guide.md`, is shown the same way. */
  lemma {:induction false} FormatNameOfTopLevel(name: string)
    requires '/' !in name && NoMd(name)
    ensures FormatName(name + ".md") == Capitalized(Spaced(name))
  {
    assert '/' !in name + ".md" by {
      assert forall k :: 0 <= k < |name| ==> (name + ".md")[k] == name[k];
    }
    DirOfLastSegment(name + ".md");
    RemoveFirstMdSuffix(name);
  }

  /** The node `addFileToTree` creates for a path it has not seen. */
  function NewNode(filePath: string, title: Option<string>): Node
  {
    var name := FormatName(filePath);
    Node(filePath, name, if Truthy(title) then title.value else name, {})
  }

  /** Adds `filePath` to the children of `parentPath` when that is a truthy path of the tree. */
  function LinkToParent(t: Tree, filePath: string, parentPath: Option<string>): Tree
  {
    if Truthy(parentPath) && parentPath.value in t then
      var p := parentPath.value;
      t[p := t[p].(children := t[p].children + {filePath})]
    else t
  }

  /** What `addFileToTree` does to the tree: insert a new node or only link an existing one. */
  function TreeInsert(t: Tree, filePath: string, parentPath: Option<string>, title: Option<string>): Tree
  {
    if filePath in t then LinkToParent(t, filePath, parentPath)
    else LinkToParent(t[filePath := NewNode(filePath, title)], filePath, parentPath)
  }

  /** What `updateTitles` does to the tree: a truthy title replaces the root's title. */
  function UpdateRootTitle(t: Tree, title: Option<string>): Tree
  {
    if Truthy(title) && Root in t then t[Root := t[Root].(title := title.value)] else t
  }

  /** Linking changes at most the parent's children, by adding the path. */
  lemma LinkToParentEffect(t: Tree, filePath: string, parentPath: Option<string>)
    ensures LinkToParent(t, filePath, parentPath).Keys == t.Keys
    ensures forall p :: p in t ==>
      LinkToParent(t, filePath, parentPath)[p] ==
        if Truthy(parentPath) && parentPath.value == p then t[p].(children := t[p].children + {filePath}) else t[p]
  {
  }

  /**
   * Nothing already in the tree is lost or renamed: keys stay, every old
   * node keeps its path, name and title, and its children only gain
   * `filePath`, and only when it is the given parent.
   */
  lemma {:induction false} InsertKeepsExisting(t: Tree, filePath: string, parentPath: Option<string>, title: Option<string>)
    ensures TreeInsert(t, filePath, parentPath, title).Keys == t.Keys + {filePath}
    ensures forall p :: p in t ==>
      var n := TreeInsert(t, filePath, parentPath, title)[p];
      && n.path == t[p].path && n.name == t[p].name && n.title == t[p].title
      && t[p].children <= n.children <= t[p].children + {filePath}
      && (n.children != t[p].children ==> parentPath == Some(p))
  {
    var t0 := if filePath in t then t else t[filePath := NewNode(filePath, title)];
    assert forall p :: p in t ==> t0[p] == t[p];
    LinkToParentEffect(t0, filePath, parentPath);
  }

  /**
   * For a path already in the tree only the link can change; the node
   * itself is untouched unless it is named as its own parent.
   */
  lemma {:induction false} InsertExisting(t: Tree, filePath: string, parentPath: Option<string>, title: Option<string>)
    requires filePath in t
    ensures TreeInsert(t, filePath, parentPath, title).Keys == t.Keys
    ensures parentPath != Some(filePath) ==> TreeInsert(t, filePath, parentPath, title)[filePath] == t[filePath]
    ensures Truthy(parentPath) && parentPath.value in t ==>
      filePath in TreeInsert(t, filePath, parentPath, title)[parentPath.value].children
  {
  }

  /**
   * A new path adds exactly one key, whose node has the path, the formatted
   * name, the title if truthy (the name otherwise) and no children but
   * itself when it is named as its own parent.
   */
  lemma {:induction false} InsertNew(t: Tree, filePath: string, parentPath: Option<string>, title: Option<string>)
    requires filePath !in t
    ensures |TreeInsert(t, filePath, parentPath, title)| == |t| + 1
    ensures var n := TreeInsert(t, filePath, parentPath, title)[filePath];
      && n.path == filePath
      && n.name == FormatName(filePath)
      && n.title == (if Truthy(title) then title.value else FormatName(filePath))
      && n.children == (if parentPath == Some(filePath) && filePath != "" then {filePath} else {})
  {
    var n0 := NewNode(filePath, title);
    var t0 := t[filePath := n0];
    var t1 := TreeInsert(t, filePath, parentPath, title);
    assert t1.Keys == t.Keys + {filePath} && t1[filePath] == n0.(children := t1[filePath].children)
      && t1[filePath].children == (if parentPath == Some(filePath) && filePath != "" then {filePath} else {}) by {
      LinkToParentEffect(t0, filePath, parentPath);
    }
  }

  /** Repeating the call changes nothing more, whatever title it is given. */
  lemma {:induction false} InsertIdempotent(t: Tree, filePath: string, parentPath: Option<string>, title: Option<string>, again: Option<string>)
    ensures var t1 := TreeInsert(t, filePath, parentPath, title);
      TreeInsert(t1, filePath, parentPath, again) == t1
  {
    var t1 := TreeInsert(t, filePath, parentPath, title);
    if Truthy(parentPath) && parentPath.value in t1 {
      var p := parentPath.value;
      assert filePath in t1[p].children;
      assert t1[p].children + {filePath} == t1[p].children;
      assert t1[p].(children := t1[p].children) == t1[p];
      assert t1[p := t1[p]] == t1;
    }
  }

  /** Inserting keeps the tree invariant, so `README.md` is never lost. */
  lemma {:induction false} InsertPreservesValid(t: Tree, filePath: string, parentPath: Option<string>, title: Option<string>)
    requires Valid(t)
    ensures Valid(TreeInsert(t, filePath, parentPath, title))
  {
    InsertKeepsExisting(t, filePath, parentPath, title);
  }

  /** Only the root's title can change, and only to a truthy title. */
  lemma {:induction false} UpdateRootTitleEffect(t: Tree, title: Option<string>)
    requires Valid(t)
    ensures Valid(UpdateRootTitle(t, title))
    ensures UpdateRootTitle(t, title).Keys == t.Keys
    ensures UpdateRootTitle(t, title)[Root].title == if Truthy(title) then title.value else t[Root].title
    ensures forall p :: p in t && p != Root ==> UpdateRootTitle(t, title)[p] == t[p]
  {
  }
}
