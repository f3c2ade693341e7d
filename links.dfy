/**
 * Link rewriting (`processLinksInContent` in scripts/script.js): an anchor
 * whose `href` is present, non-empty and starts with none of `http`,
 * `javascript:` and `#` is taken over: its `href` becomes a no-op script
 * URL and a click loads the resolved document instead. A `#` anchor is only
 * marked; every other anchor is left alone.
 */
module Links {
  import opened Wrappers
  import opened Strings
  import PathResolver

  /** What the rewriting does with an anchor, decided by its `href`. */
  datatype HrefKind = Untouched | SamePageAnchor | DocumentLink

  function ClassifyHref(href: Option<string>): HrefKind
  {
    if href.None? || href.value == "" then Untouched
    else if StartsWith(href.value, "http") || StartsWith(href.value, "javascript:") then Untouched
    else if StartsWith(href.value, "#") then SamePageAnchor
    else DocumentLink
  }

  /** The load a click on a taken-over anchor triggers: the target path and the current document as parent. */
  datatype Navigation = Navigation(target: string, parent: string)

  /** An anchor: its `href` attribute, whether it carries the `md-link` class, and its click handler. */
  datatype Link = Link(href: Option<string>, mdLink: bool, onClick: Option<Navigation>)

  /** The `href` a taken-over anchor is given. */
  const VoidHref: string := "javascript:void(0);"

  /** What the rewriting does to one anchor of the document at `currentFilePath`. */
  function ProcessLink(l: Link, currentFilePath: string): Link
  {
    match ClassifyHref(l.href)
    case Untouched => l
    case SamePageAnchor => l.(mdLink := true)
    case DocumentLink =>
      Link(Some(VoidHref), true, Some(Navigation(PathResolver.Resolve(l.href.value, currentFilePath), currentFilePath)))
  }

  /** `processLinksInContent(container, currentFilePath)` over the anchors of the container. */
  method ProcessLinksInContent(links: array<Link>, currentFilePath: string)
    modifies links
    ensures forall k :: 0 <= k < links.Length ==> links[k] == ProcessLink(old(links[k]), currentFilePath)
  {
    for i := 0 to links.Length
      invariant forall k :: 0 <= k < i ==> links[k] == ProcessLink(old(links[k]), currentFilePath)
      invariant forall k :: i <= k < links.Length ==> links[k] == old(links[k])
    {
      var link := links[i];
      var href := link.href;
      if href.Some? && href.value != "" && !StartsWith(href.value, "http") && !StartsWith(href.value, "javascript:") {
        if StartsWith(href.value, "#") {
          links[i] := link.(mdLink := true);
        } else {
          var target := PathResolver.Resolve(href.value, currentFilePath);
          links[i] := Link(Some(VoidHref), true, Some(Navigation(target, currentFilePath)));
        }
      }
    }
  }

  /**
   * An anchor is taken over exactly when its `href` is present, non-empty
   * and starts with none of `http`, `javascript:` and `#`; then a click
   * loads the resolved path with the current document as parent. Any other
   * anchor keeps its `href` and its click handler.
   */
  lemma {:induction false} TakeOverIff(l: Link, currentFilePath: string)
    ensures var h := l.href;
      var taken := h.Some? && h.value != "" && !StartsWith(h.value, "http")
        && !StartsWith(h.value, "javascript:") && !StartsWith(h.value, "#");
      && (taken ==> ProcessLink(l, currentFilePath).href == Some(VoidHref))
      && (taken ==> ProcessLink(l, currentFilePath).onClick
                      == Some(Navigation(PathResolver.Resolve(h.value, currentFilePath), currentFilePath)))
      && (!taken ==> ProcessLink(l, currentFilePath).href == h)
      && (!taken ==> ProcessLink(l, currentFilePath).onClick == l.onClick)
      && ProcessLink(l, currentFilePath).mdLink
           == (l.mdLink || (h.Some? && h.value != "" && !StartsWith(h.value, "http")
                            && !StartsWith(h.value, "javascript:")))
  {
  }

  /** Rewriting the same anchors twice is the same as once: the new `href` starts with `javascript:`. */
  lemma {:induction false} ProcessLinkIdempotent(l: Link, currentFilePath: string, laterPath: string)
    ensures ProcessLink(ProcessLink(l, currentFilePath), laterPath) == ProcessLink(l, currentFilePath)
  {
    if ClassifyHref(l.href) == DocumentLink {
      assert StartsWith(VoidHref, "javascript:");
    }
  }

  /** The `http` test is a plain prefix test: a relative document whose name starts with `http` is not taken over. */
  lemma {:induction false} HttpNamedDocumentIgnored(rest: string)
    ensures ClassifyHref(Some("http" + rest)) == Untouched
  {
    assert ("http" + rest)[..4] == "http";
  }
}
