/**
 * The load bookkeeping of `loadMarkdownFile` (scripts/script.js): the path
 * loses one leading `/`, a cached document is shown without a request, and
 * a fetched one is written to the cache, then added to the tree, and for
 * the README its title becomes the root's title. The outcome of the request
 * is an input: a response with text, a response that is not ok, or a
 * rejected request.
 */
module Session {
  import opened Wrappers
  import opened Strings
  import opened FileTree
  import MarkdownTitle

  /** What the cache keeps per path: the text, the parent it was first loaded from, and its title. */
  datatype CacheEntry = CacheEntry(content: string, parent: Option<string>, title: Option<string>)

  type Cache = map<string, CacheEntry>

  /** The outcome of the network request for a path. */
  datatype Response = Ok(text: string) | NotOk(status: int) | Rejected(reason: string)

  /** The two failures the content area reports. */
  datatype LoadError = NotFound(status: int) | NetworkFailure(reason: string)

  /** What the content area ends up showing. */
  datatype Outcome =
    | FromCache(path: string, content: string)
    | Fetched(path: string, content: string)
    | Failed(error: LoadError, requested: string)

  /** The requested path with one leading slash removed, if it has one. */
  function CleanPath(filePath: string): (path: string)
    ensures StartsWith(filePath, "/") ==> filePath == "/" + path
    ensures !StartsWith(filePath, "/") ==> path == filePath
  {
    if StartsWith(filePath, "/") then filePath[1..] else filePath
  }

  /** Every cached document has a node, and the tree invariant holds. */
  predicate Consistent(cache: Cache, tree: Tree)
  {
    Valid(tree) && cache.Keys <= tree.Keys
  }

  /** One call of `loadMarkdownFile`: the new cache, the new tree, and what is shown. */
  function LoadStep(cache: Cache, tree: Tree, filePath: string, parentPath: Option<string>, response: Response)
    : (Cache, Tree, Outcome)
  {
    var path := CleanPath(filePath);
    if path in cache then (cache, tree, FromCache(path, cache[path].content))
    else
      match response
      case NotOk(status) => (cache, tree, Failed(NotFound(status), filePath))
      case Rejected(reason) => (cache, tree, Failed(NetworkFailure(reason), filePath))
      case Ok(text) =>
        var title := MarkdownTitle.ExtractTitle(text);
        var tree' := TreeInsert(tree, path, parentPath, title);
        (cache[path := CacheEntry(text, parentPath, title)],
         if path == Root then UpdateRootTitle(tree', title) else tree',
         Fetched(path, text))
  }

  /** The session's cache and tree, which the page keeps as globals. */
  class Store {
    var cache: Cache
    var tree: Tree

    ghost predicate Valid()
      reads this
    {
      Consistent(cache, tree)
    }

    /** The page as it starts: an empty cache and the README root. */
    constructor ()
      ensures Valid()
      ensures cache == map[] && tree == InitialTree()
    {
      cache := map[];
      tree := InitialTree();
    }

    /** `addFileToTree(filePath, parentPath, title)`. */
    method AddFileToTree(filePath: string, parentPath: Option<string>, title: Option<string>) returns (node: Node)
      requires FileTree.Valid(tree)
      modifies this
      ensures tree == TreeInsert(old(tree), filePath, parentPath, title)
      ensures cache == old(cache)
      ensures node == tree[filePath]
      ensures FileTree.Valid(tree)
      ensures old(Valid()) ==> Valid()
    {
      ghost var t0 := tree;
      InsertPreservesValid(t0, filePath, parentPath, title);
      if filePath in tree {
        if Truthy(parentPath) && parentPath.value in tree && filePath !in tree[parentPath.value].children {
          var p := parentPath.value;
          tree := tree[p := tree[p].(children := tree[p].children + {filePath})];
        } else if Truthy(parentPath) && parentPath.value in tree {
          var p := parentPath.value;
          assert tree[p].children + {filePath} == tree[p].children;
          assert tree[p := tree[p].(children := tree[p].children + {filePath})] == tree;
        }
        return tree[filePath];
      }
      var name := FormatName(filePath);
      tree := tree[filePath := Node(filePath, name, if Truthy(title) then title.value else name, {})];
      if Truthy(parentPath) && parentPath.value in tree {
        var p := parentPath.value;
        tree := tree[p := tree[p].(children := tree[p].children + {filePath})];
      }
      node := tree[filePath];
    }

    /** The tree part of `updateTitles(title)`. */
    method UpdateTitles(title: Option<string>)
      requires FileTree.Valid(tree)
      modifies this
      ensures tree == UpdateRootTitle(old(tree), title)
      ensures cache == old(cache)
      ensures FileTree.Valid(tree)
      ensures old(Valid()) ==> Valid()
    {
      UpdateRootTitleEffect(tree, title);
      if !Truthy(title) {
        return;
      }
      if Root in tree {
        tree := tree[Root := tree[Root].(title := title.value)];
      }
    }

    /** `loadMarkdownFile(filePath, parentPath)` with the outcome of its request given as `response`. */
    method LoadMarkdownFile(filePath: string, parentPath: Option<string>, response: Response) returns (outcome: Outcome)
      requires Valid()
      modifies this
      ensures (cache, tree, outcome) == LoadStep(old(cache), old(tree), filePath, parentPath, response)
      ensures Valid()
    {
      ghost var c0, t0 := cache, tree;
      var path := if StartsWith(filePath, "/") then filePath[1..] else filePath;
      assert path == CleanPath(filePath);
      if path in cache {
        return FromCache(path, cache[path].content);
      }
      match response {
        case NotOk(status) =>
          return Failed(NotFound(status), filePath);
        case Rejected(reason) =>
          return Failed(NetworkFailure(reason), filePath);
        case Ok(text) =>
          var title := MarkdownTitle.ExtractTitle(text);
          cache := cache[path := CacheEntry(text, parentPath, title)];
          var _ := AddFileToTree(path, parentPath, title);
          ghost var t1 := tree;
          assert t1 == TreeInsert(t0, path, parentPath, title);
          if path == Root && Truthy(title) {
            UpdateTitles(title);
          }
          assert tree == if path == Root then UpdateRootTitle(t1, title) else t1;
          outcome := Fetched(path, text);
          LoadKeepsConsistent(c0, t0, filePath, parentPath, response);
      }
    }
  }

  /** The outcome is decided by the cache first and by the response only on a miss. */
  lemma {:induction false} LoadOutcomeCases(cache: Cache, tree: Tree, filePath: string, parentPath: Option<string>, response: Response)
    ensures var (_, _, outcome) := LoadStep(cache, tree, filePath, parentPath, response);
      && (outcome.FromCache? <==> CleanPath(filePath) in cache)
      && (outcome.Fetched? <==> CleanPath(filePath) !in cache && response.Ok?)
      && (outcome.Failed? <==> CleanPath(filePath) !in cache && !response.Ok?)
      && (outcome.FromCache? ==> outcome.content == cache[CleanPath(filePath)].content)
      && (outcome.Fetched? ==> outcome.content == response.text)
      && (outcome.Failed? ==> outcome.requested == filePath)
  {
  }

  /** A cache hit and a failed request leave the cache and the tree as they were. */
  lemma {:induction false} LoadWithoutFetchChangesNothing(cache: Cache, tree: Tree, filePath: string, parentPath: Option<string>, response: Response)
    requires !LoadStep(cache, tree, filePath, parentPath, response).2.Fetched?
    ensures LoadStep(cache, tree, filePath, parentPath, response).0 == cache
    ensures LoadStep(cache, tree, filePath, parentPath, response).1 == tree
  {
  }

  /**
   * A load never forgets: cache entries are never replaced or removed, and
   * tree paths are never removed.
   */
  lemma {:induction false} LoadOnlyGrows(cache: Cache, tree: Tree, filePath: string, parentPath: Option<string>, response: Response)
    ensures var (cache', tree', _) := LoadStep(cache, tree, filePath, parentPath, response);
      && cache.Keys <= cache'.Keys
      && (forall p :: p in cache ==> cache'[p] == cache[p])
      && tree.Keys <= tree'.Keys
  {
    InsertKeepsExisting(tree, CleanPath(filePath), parentPath, MarkdownTitle.ExtractTitle(if response.Ok? then response.text else ""));
  }

  /** Every load keeps the tree invariant and a node for every cached path. */
  lemma {:induction false} LoadKeepsConsistent(cache: Cache, tree: Tree, filePath: string, parentPath: Option<string>, response: Response)
    requires Consistent(cache, tree)
    ensures var (cache', tree', _) := LoadStep(cache, tree, filePath, parentPath, response);
      Consistent(cache', tree')
  {
    var path := CleanPath(filePath);
    if path !in cache && response.Ok? {
      var title := MarkdownTitle.ExtractTitle(response.text);
      var tree' := TreeInsert(tree, path, parentPath, title);
      InsertPreservesValid(tree, path, parentPath, title);
      InsertKeepsExisting(tree, path, parentPath, title);
      UpdateRootTitleEffect(tree', title);
    }
  }

  /**
   * What a fetch records: the cache entry holds the text, the parent and
   * the extracted title, the path has a node, and it is linked under a
   * parent that is a truthy path already in the tree.
   */
  lemma {:induction false} FetchRecords(cache: Cache, tree: Tree, filePath: string, parentPath: Option<string>, text: string)
    requires Consistent(cache, tree)
    requires CleanPath(filePath) !in cache
    ensures var path := CleanPath(filePath);
      var (cache', tree', _) := LoadStep(cache, tree, filePath, parentPath, Ok(text));
      && cache'.Keys == cache.Keys + {path}
      && cache'[path] == CacheEntry(text, parentPath, MarkdownTitle.ExtractTitle(text))
      && path in tree'
      && (Truthy(parentPath) && parentPath.value in tree ==> path in tree'[parentPath.value].children)
  {
    var path := CleanPath(filePath);
    var title := MarkdownTitle.ExtractTitle(text);
    InsertKeepsExisting(tree, path, parentPath, title);
    var tree' := TreeInsert(tree, path, parentPath, title);
    InsertPreservesValid(tree, path, parentPath, title);
    UpdateRootTitleEffect(tree', title);
  }

  /**
   * The README's title becomes the root's title only when it is truthy;
   * otherwise the root keeps the title it had.
   */
  lemma {:induction false} ReadmeTitle(cache: Cache, tree: Tree, parentPath: Option<string>, text: string)
    requires Consistent(cache, tree)
    requires Root !in cache
    ensures var title := MarkdownTitle.ExtractTitle(text);
      var (_, tree', _) := LoadStep(cache, tree, Root, parentPath, Ok(text));
      tree'[Root].title == if Truthy(title) then title.value else tree[Root].title
  {
    var title := MarkdownTitle.ExtractTitle(text);
    assert Root[..1][0] == 'R';
    InsertKeepsExisting(tree, Root, parentPath, title);
    var tree' := TreeInsert(tree, Root, parentPath, title);
    InsertPreservesValid(tree, Root, parentPath, title);
    UpdateRootTitleEffect(tree', title);
  }

  /**
   * A path is fetched at most once: after a load that did not fail, loading
   * the same path again, spelled with or without the leading slash, from any
   * parent and whatever the network would answer, is served from the cache
   * with the same text and changes nothing.
   */
  lemma {:induction false} SecondLoadServedFromCache(
    cache: Cache, tree: Tree, filePath: string, parentPath: Option<string>, response: Response,
    again: string, parentAgain: Option<string>, responseAgain: Response)
    requires CleanPath(again) == CleanPath(filePath)
    requires !LoadStep(cache, tree, filePath, parentPath, response).2.Failed?
    ensures var (cache', tree', first) := LoadStep(cache, tree, filePath, parentPath, response);
      LoadStep(cache', tree', again, parentAgain, responseAgain) == (cache', tree', FromCache(first.path, first.content))
  {
  }
}
