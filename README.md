# Markdown documentation viewer: verified model of the page script

The viewer is a single-page site that shows a GitHub repository's
Markdown files. It fetches raw files, renders them, and rewrites links
between documents so that a click loads the target in place. As it goes it
builds a navigation tree of the documents it has loaded. This project
models that logic of `scripts/script.js` in Dafny and proves properties
of it:

- **Paths** (`strings.dfy`, `path_resolver.dfy`). Slash split, join and
  directory-of. `resolveRelativePath` is an imperative method with its
  `../` loop, proved equal to the rule-based function `Resolve`. Lemmas
  give the result for every prefix class.
- **Navigation tree** (`file_tree.dfy`). The tree is a map from path to
  node, seeded with the `README.md` root. `TreeInsert` is what
  `addFileToTree` does to it, and `UpdateRootTitle` is the tree part of
  `updateTitles`. The display name is derived from the file name.
- **Title extraction** (`markdown_title.dfy`). The multiline pattern
  `^#\s+(.+)$` is modelled with JavaScript's line terminators, its `\s`
  set and greedy backtracking, followed by `trim`.
- **Heading ids** (`headings.dfy`). The slug is built from the lowered
  text. `processHeadings` is a loop over an array of headings.
- **Link rewriting** (`links.dfy`). The `href` test decides which anchors
  are taken over. `processLinksInContent` is a loop over an array of
  anchors.
- **Load bookkeeping** (`session.dfy`). A `Store` class holds the file
  cache and the tree, the two globals of the page. `LoadMarkdownFile`
  performs the steps of `loadMarkdownFile` in order: path clean-up, cache
  lookup, request outcome, cache write, tree insert, README title. It is
  proved equal to the pure `LoadStep`, and `LoadStep`'s lemmas state what
  the cache and the tree guarantee.

A few things differ from a straight reading:

- The outcome of the network request is a parameter (`Response`).
- Character lowering is a parameter (`lower`) of the heading slug.
- The children of a node form a set.
- Two `../` from `a/b/c.md` empty the directory. The script still joins
  the empty directory with `/`, so `../../x.md` resolves to `/x.md`, and
  `loadMarkdownFile` strips that slash before the cache lookup
  (`PathResolver.ResolveTwoParentsUp`, `Session.CleanPath`).

## Model

| member | source | states |
|---|---|---|
| `Strings.Join` | scripts/script.js:270 | `join('/')`: the pieces with one `/` between neighbours; its inverse is `Split` (`JoinSplit`, `SplitJoin`) |
| `Strings.Split` | scripts/script.js:261 | splitting on `/` gives at least one piece, no piece holds `/`, and there are two or more pieces exactly when the string has a slash |
| `Strings.JoinSplit` | scripts/script.js:261 | joining the pieces of a split with `/` gives back the string |
| `Strings.SplitJoin` | scripts/script.js:270 | splitting a join of slash-free pieces gives back the pieces |
| `Strings.SplitCons` | scripts/script.js:261 | a slash-free head, `/` and a tail split into the head followed by the pieces of the tail |
| `Strings.JoinSnoc` | scripts/script.js:263-277 | joining pieces plus one more piece is the old join, `/` and the piece |
| `Strings.SplitOfDirOf` | scripts/script.js:270 | the pieces of the directory of a path with a slash are the pieces of the path without the last one |
| `Strings.DirOf` | scripts/script.js:261 | `split('/').slice(0, -1).join('/')`: the path without its last segment and the slash before it (`DirOfLastSegment`, `SplitOfDirOf`) |
| `Strings.LastSegment` | scripts/script.js:104 | `split('/').pop()`: the text after the last slash (`DirOfLastSegment`, `AppendSegment`) |
| `Strings.ReplaceLast` | scripts/script.js:263-277 | joining the directory's pieces plus a new last piece is the directory, `/` and that piece |
| `Strings.DirOfLastSegment` | scripts/script.js:104 | the last segment has no slash; a path with a slash is its directory, `/` and its last segment; a path without one has the empty directory and is its own last segment |
| `Strings.AppendSegment` | scripts/script.js:261 | appending `/` and a slash-free segment adds one piece, and the directory and last segment give back the two parts |
| `Strings.Trim` | scripts/script.js:74 | the result is the stretch of the string between a white-space prefix and a white-space suffix and has no white space at either end; a string without any is unchanged |
| `Strings.TrimSliceDropsSpaces` | scripts/script.js:74 | white space in front of a stretch of a string makes no difference to its trimming |
| `PathResolver.Resolve` | scripts/script.js:260-279 | the four prefix rules of the resolver as one function; its value for each rule is given by `ResolveDotSlash`, `ResolveParentRefs`, `ResolveRootRelative` and `ResolvePlain`, and the loop is proved equal to it |
| `PathResolver.ResolveRelativePath` | scripts/script.js:260-279 | the resolver, with its loop over leading `../`, returns exactly `Resolve` of its arguments; the loop invariant keeps what remains to climb equal to the full climb |
| `PathResolver.AncestorOfEmpty` | scripts/script.js:270 | dropping segments from the empty directory leaves it empty |
| `PathResolver.DropLastStep` | scripts/script.js:270 | dropping `k` pieces is dropping the last piece and then `k - 1` more |
| `PathResolver.AncestorOfSplit` | scripts/script.js:270 | taking the directory `k` times keeps the first `n - k` of a path's `n` pieces when that many remain, and clamps at the empty directory otherwise |
| `PathResolver.ClimbStrips` | scripts/script.js:269-272 | the loop strips exactly the leading `../` and drops one directory segment for each |
| `PathResolver.ResolveParentRefs` | scripts/script.js:265-273 | `k` leading `../` resolve to the base's directory less `k` segments, then `/` and the rest; when too many, the result is `/` and the rest |
| `PathResolver.ResolveClimb` | scripts/script.js:265-273 | a reference starting with `../` resolves to the directory the climb from the base's directory leaves, `/` and the rest |
| `PathResolver.ResolveDotSlash` | scripts/script.js:263-264 | `./rest` replaces the base's last segment by `rest`; under a base without a slash it gives `/rest` |
| `PathResolver.ResolveRootRelative` | scripts/script.js:274-275 | a reference starting with `/` resolves to the rest of it, whatever the base |
| `PathResolver.ResolvePlain` | scripts/script.js:276-277 | any other reference replaces the base's last segment, and is kept as it is when the base has no directory |
| `PathResolver.SplitTwoDeep` | scripts/script.js:261 | a path two directories deep splits into its three segments |
| `PathResolver.ResolveOneParentUp` | scripts/script.js:265-273 | `../x` from `a/b/file` resolves to `a/x` |
| `PathResolver.ResolveTwoParentsUp` | scripts/script.js:265-273 | `../../x` from `a/b/file` resolves to `/x`, with a leading slash |
| `PathResolver.ResolveThreeParentsUp` | scripts/script.js:265-273 | more `../` than directories clamps at the empty directory and still gives `/x` |
| `FileTree.InitialTreeValid` | scripts/script.js:10-18 | the initial tree holds the README root under its own path with the loading title, and satisfies the tree invariant |
| `FileTree.LinkToParentEffect` | scripts/script.js:97-119 | linking keeps the keys and changes only the named parent, whose children gain the file |
| `FileTree.RemoveFirstMd` | scripts/script.js:104 | removing `.md` shortens the name by three or not at all, adds no character, and leaves a name without `.md` unchanged |
| `FileTree.RemoveFirstMdFirst` | scripts/script.js:104 | only the first `.md` is removed: the text before it and everything after it are kept |
| `FileTree.RemoveFirstMdSuffix` | scripts/script.js:104 | a name with no other `.md` loses exactly its `.md` suffix |
| `FileTree.Spaced` | scripts/script.js:105 | the result has the same length, a space wherever the name had `_` or `-`, and every other character in place |
| `FileTree.ToUpper` | scripts/script.js:106 | a small letter of `a`-`z`, `а`-`я` or `ѐ`-`џ` becomes the capital at the same place of its alphabet, any other character stays, and the result is never such a small letter |
| `FileTree.Capitalized` | scripts/script.js:106 | the length and all but the first character are kept; a small first letter becomes its capital, any other first character stays, and the result never starts with a small letter |
| `FileTree.CapitalizedIdempotent` | scripts/script.js:106 | capitalizing twice is capitalizing once |
| `FileTree.FormatName` | scripts/script.js:104-106 | a display name holds no `_`, `-` or `/`, and is no longer than the last segment of the path |
| `FileTree.FormatNameOfDocument` | scripts/script.js:104-106 | `dir/name.md` is shown as `name` with `_` and `-` spaced and its first letter upper-cased |
| `FileTree.FormatNameOfTopLevel` | scripts/script.js:104-106 | a top-level `name.md`, such as `guide.md`, is shown as `name` with `_` and `-` spaced and its first letter upper-cased |
| `FileTree.TreeInsert` | scripts/script.js:94-122 | what `addFileToTree` does to the tree: a known path is only linked under its parent, a new one gets a node and the link (`InsertKeepsExisting`, `InsertExisting`, `InsertNew`) |
| `FileTree.UpdateRootTitle` | scripts/script.js:78-91 | what `updateTitles` does to the tree: a truthy title replaces the README root's title (`UpdateRootTitleEffect`) |
| `FileTree.InsertKeepsExisting` | scripts/script.js:94-122 | adding a file adds only its path; every existing node keeps its path, name and title; children only grow, by the file, and only under the named parent |
| `FileTree.InsertExisting` | scripts/script.js:96-101 | a file already in the tree adds no key, keeps its node unless it is named as its own parent, and becomes a child of a truthy parent present in the tree |
| `FileTree.InsertNew` | scripts/script.js:103-119 | a new file adds exactly one node with its path, its display name, its title if truthy and the name otherwise, and no children but itself when it is named as its own parent |
| `FileTree.InsertIdempotent` | scripts/script.js:94-122 | adding the same file under the same parent again changes nothing, whatever title is passed |
| `FileTree.InsertPreservesValid` | scripts/script.js:94-122 | adding a file keeps the root, every node under its own path and every child a node |
| `FileTree.UpdateRootTitleEffect` | scripts/script.js:78-91 | the title update keeps the invariant and the keys, sets the root title to a truthy title, and leaves it and every other node alone otherwise |
| `MarkdownTitle.FirstCapture` | scripts/script.js:73 | the group of the leftmost match of `^#\s+(.+)$` under the `m` flag, searching from a position on (`CaptureOfFirstMatch`, `NoMatchFrom`) |
| `MarkdownTitle.ExtractTitle` | scripts/script.js:72-75 | a title found is trimmed |
| `MarkdownTitle.TitleOnOneLine` | scripts/script.js:73 | a title never holds a line terminator |
| `MarkdownTitle.FirstCaptureOneLine` | scripts/script.js:73 | a capture from any position holds no line terminator |
| `MarkdownTitle.NoHeadingLineNoTitle` | scripts/script.js:73-74 | with no line opening with `#` and white space, the result is null |
| `MarkdownTitle.NoMatchFrom` | scripts/script.js:73 | with no heading line from a position on, the search from there finds nothing |
| `MarkdownTitle.HeadingLineGivesTitle` | scripts/script.js:73-74 | a line opening with `#`, white space and a non-terminator always yields some title |
| `MarkdownTitle.FirstLineTitle` | scripts/script.js:72-75 | a document opening with `# text` has the trimmed text as its title |
| `MarkdownTitle.BareHashTakesNextLine` | scripts/script.js:73 | a line holding only `#` takes the next line as the title, because `\s+` crosses the line end |
| `MarkdownTitle.BlankHeadingGivesEmptyTitle` | scripts/script.js:73-74 | `#` followed by spaces only gives the empty title, not null |
| `MarkdownTitle.SubheadingGivesNoTitle` | scripts/script.js:73-74 | a single `##` heading line gives null |
| `MarkdownTitle.MatchIsHeading` | scripts/script.js:73 | a match of the pattern can only start on a line that opens with `#` and white space |
| `MarkdownTitle.CaptureOfFirstMatch` | scripts/script.js:73 | with no heading line between the start of the search and a match, the search returns that match's group |
| `MarkdownTitle.GroupOnHeadingLine` | scripts/script.js:73 | on a heading line whose rest holds a character that is not white space, `\s+` stops inside the line, so the group starts after white space only and ends at that line's end |
| `MarkdownTitle.FirstHeadingCapture` | scripts/script.js:73 | with no heading line before it, a heading line whose rest holds a character that is not white space gives the search's group: the rest after the white space, up to the line end |
| `MarkdownTitle.TitleFromCapture` | scripts/script.js:72-75 | when the search's group is preceded by white space only from some position on, the title is the trimmed stretch from that position to the group's end |
| `MarkdownTitle.HeadingTitleAt` | scripts/script.js:72-75 | the first heading line whose rest holds a given character that is not white space gives that rest, trimmed, as the title |
| `MarkdownTitle.FirstHeadingTitle` | scripts/script.js:72-75 | on the first heading line whose rest after `#` and one white-space character holds a character that is not white space, the title is that rest, trimmed, however much white space follows the `#` |
| `Headings.CollapseNonWord` | scripts/script.js:290 | `replace(/[^\w\u0400-\u04FF]+/g, '-')`: each maximal run of non-word characters becomes one `-` (`CollapseNonWordShape`, `CollapseSeparates`) |
| `Headings.SkipNonWordFacts` | scripts/script.js:290 | skipping a run of non-word characters loses no word character and stops at a word character or the end |
| `Headings.CollapseNonWordShape` | scripts/script.js:290 | each run of non-word characters becomes one `-`: only `-` and word characters, no `--`, the same word characters in order, empty only for empty input, and a leading `-` exactly for a leading non-word character |
| `Headings.CollapseAllWord` | scripts/script.js:290 | text made only of word characters is unchanged |
| `Headings.SkipNonWordRun` | scripts/script.js:290 | skipping a run of non-word characters stops at the word character after it |
| `Headings.CollapseConcat` | scripts/script.js:290 | collapsing distributes over a cut after a word character, since no run spans it |
| `Headings.CollapseRun` | scripts/script.js:290 | a whole run of non-word characters before a word character or the end becomes one `-` |
| `Headings.CollapseSeparates` | scripts/script.js:290 | a run of non-word characters between two word-bounded parts becomes exactly one `-` between their collapses |
| `Headings.CollapseKeepsLast` | scripts/script.js:290 | the collapse of text ending with a word character ends with that character |
| `Headings.TrimHyphens` | scripts/script.js:291 | the leading and the trailing run of `-` removed and everything between them kept (`TrimHyphensEnds`, `TrimHyphensWords`, `TrimHyphensShape`) |
| `Headings.TrimHyphensEnds` | scripts/script.js:291 | a run of `-`, text with no `-` at either end, and a run of `-` trim to exactly that text, interior `-` included |
| `Headings.TrimHyphensNoEnds` | scripts/script.js:291 | text that is not `-` at either end is left as it is |
| `Headings.TrimHyphensWords` | scripts/script.js:291 | cutting `-` off both ends keeps the word characters |
| `Headings.TrimHyphensShape` | scripts/script.js:291 | cutting `-` off both ends of a hyphen-separated string leaves no `-` at either end and no `--` |
| `Headings.Slug` | scripts/script.js:288-291 | the id of a heading: the lowered text, collapsed, with `-` trimmed from both ends (`SlugShape`, `SlugOfPadded`, `SlugSeparates`) |
| `Headings.SlugShape` | scripts/script.js:288-291 | an id has only `-` and word characters, no `--`, no `-` at either end, and exactly the word characters of the lowered text in order |
| `Headings.SlugOfUntrimmed` | scripts/script.js:288-291 | lowered text that starts and ends with a word character has its collapse as its id |
| `Headings.CollapseNoWord` | scripts/script.js:290 | a run of non-word characters alone collapses to one `-`, and the empty text to nothing |
| `Headings.CollapseLeading` | scripts/script.js:290 | a run of non-word characters in front of a word character becomes one `-` of its own, and no run adds nothing |
| `Headings.CollapseTrailing` | scripts/script.js:290 | a run of non-word characters after a word character becomes one `-` of its own, and no run adds nothing |
| `Headings.CollapsePadded` | scripts/script.js:290 | a word-bounded middle between two runs of non-word characters, each possibly empty, collapses to the collapse of the middle with only `-` on either side |
| `Headings.TrimCollapsePadded` | scripts/script.js:290-291 | a word-bounded middle between two runs of non-word characters, each possibly empty, collapses and trims to the collapse of the middle |
| `Headings.SlugOfPadded` | scripts/script.js:288-291 | lowered text made of a non-word run, a middle that starts and ends with a word character, and another non-word run (either run possibly empty) has the collapse of the middle as its id, so `a b!` lowered to itself gives `a-b` |
| `Headings.SlugOfWords` | scripts/script.js:288-291 | lowered text of word characters only is its own id |
| `Headings.SlugSeparates` | scripts/script.js:288-291 | two word-bounded parts around a run of non-word characters give the id of the first, one `-`, and the id of the second |
| `Headings.SlugEmptyIff` | scripts/script.js:288-291 | the id is empty exactly when the lowered text has no word character |
| `Headings.SlugCharsAreLowered` | scripts/script.js:288-291 | every character of the id but `-` is the lowering of a character of the text |
| `Headings.AssignId` | scripts/script.js:285-292 | what `processHeadings` does to one heading: a heading without an id gets the slug of its text (`AssignIdKeepsExplicitId`, `AssignIdIdempotent`) |
| `Headings.AssignIdKeepsExplicitId` | scripts/script.js:286 | a heading that has an id keeps it, and no text changes |
| `Headings.AssignIdIdempotent` | scripts/script.js:285-293 | processing a heading twice is the same as once |
| `Headings.ProcessHeadings` | scripts/script.js:282-295 | every heading becomes its id-assigned self, in place |
| `Links.ClassifyHref` | scripts/script.js:371-372 | the `href` test: absent, empty, `http` and `javascript:` links are untouched, `#` links are same-page anchors, the rest are document links (`TakeOverIff`) |
| `Links.ProcessLink` | scripts/script.js:371-385 | what the loop does to one anchor: a `#` anchor is marked with `md-link`, a document link gets the no-op `href` and a click that loads the resolved path (`TakeOverIff`, `ProcessLinkIdempotent`) |
| `Links.ProcessLinksInContent` | scripts/script.js:365-388 | every anchor becomes its processed self, in place |
| `Links.TakeOverIff` | scripts/script.js:371-384 | an anchor is taken over exactly when its href is present, non-empty and starts with none of `http`, `javascript:` and `#`; then its href is the no-op script URL and a click loads the resolved path with the current document as parent; otherwise href and click handler are unchanged; the `md-link` class is added exactly to taken-over and `#` anchors, and a class already there stays |
| `Links.ProcessLinkIdempotent` | scripts/script.js:371-384 | processing the anchors a second time, from any document, changes nothing |
| `Links.HttpNamedDocumentIgnored` | scripts/script.js:371 | a relative href whose name starts with `http` is not taken over |
| `Session.LoadStep` | scripts/script.js:192-257 | one call of `loadMarkdownFile` as a function of the cache, the tree, the path, the parent and the response (`LoadOutcomeCases`, `FetchRecords`, `LoadOnlyGrows`) |
| `Session.CleanPath` | scripts/script.js:199 | a path with a leading slash is `/` and the result; any other path is unchanged |
| `Session.Store.constructor` | scripts/script.js:9-18 | the page starts with an empty cache and the README root, which is consistent |
| `Session.Store.AddFileToTree` | scripts/script.js:94-122 | the tree becomes `TreeInsert` of the old tree, the cache is unchanged, the returned node is the file's node, and consistency is kept |
| `Session.Store.UpdateTitles` | scripts/script.js:78-91 | the tree becomes `UpdateRootTitle` of the old tree, the cache is unchanged, and consistency is kept |
| `Session.Store.LoadMarkdownFile` | scripts/script.js:192-257 | the new cache, tree and outcome are exactly `LoadStep` of the old ones, and consistency is kept |
| `Session.LoadOutcomeCases` | scripts/script.js:199-256 | a cached path is shown from the cache; otherwise an ok response is fetched and shown, and anything else fails, reporting the path as requested |
| `Session.LoadWithoutFetchChangesNothing` | scripts/script.js:202-213 | a cache hit or a failed request leaves the cache and the tree unchanged |
| `Session.LoadOnlyGrows` | scripts/script.js:225-236 | a load never removes or replaces a cache entry and never removes a tree path |
| `Session.LoadKeepsConsistent` | scripts/script.js:225-241 | every load keeps the tree invariant and a node for every cached path |
| `Session.FetchRecords` | scripts/script.js:225-236 | a fetch caches the text, parent and extracted title under the clean path, adds its node, and links it under a truthy parent in the tree |
| `Session.ReadmeTitle` | scripts/script.js:238-241 | fetching the README sets the root title to its title when truthy, and leaves it otherwise |
| `Session.SecondLoadServedFromCache` | scripts/script.js:199-211 | after a load that did not fail, loading the same path again is served from the cache with the same text and changes nothing: each path is fetched at most once |

## Left out

- The DOM is not modelled: the content area, spinner, error box, active-file highlight, `document.title`, the sidebar title and sidebar state. `updateTitles` is modelled only for the tree.
- `renderFileTree` and `renderTreeLevel` are not modelled. They only draw the tree.
- `displayMarkdown`, `preprocessSpecialBlocks` and the `marked` renderer are not modelled. The script calls `processHeadings` and `processLinksInContent` on the rendered output; the model takes its headings and anchors as arrays.
- The sidebar functions `toggleSidebar`, `updateSidebarState` and `initSidebarState`, and the location hash, are not modelled.
- `fetch` and the raw URL are not modelled. The response is a parameter. Interleavings of concurrent loads are not modelled either: each load runs to completion before the next.
- The message texts of the error box are not modelled. The model keeps the status or the rejection reason, and the requested path.
- Node children are a set, so the model does not capture their order.
- Nodes have no constant `type: 'file'` field.
- Property lookups on the page's plain objects also see inherited keys such as `constructor`. The model treats them as absent.
- `Headings.SlugShape`: lowering is a per-character parameter. Full Unicode case mapping can change a string's length, which the model does not capture.
- `FileTree.ToUpper`: upper-cases only `a`-`z` (U+0061-U+007A) and U+0430-U+045F. Every other character stays, for example `é` (U+00E9) and `ґ` (U+0491), which `toUpperCase` maps too. Mappings that lengthen the string, such as `ß` to `SS`, are not modelled.
- Strings are sequences of code points. UTF-16 surrogate pairs are not modelled.
