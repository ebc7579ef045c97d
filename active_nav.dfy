/** Highlighting the navigation link that points at the page being shown. */
module ActiveNav {
  import opened JsText

  /** The page assumed when the path ends in `/`. */
  const DefaultPage: string := "index.html"

  /** The last segment of the path, or the default page when it is empty. */
  function CurrentPage(pathname: string): string {
    var last := AfterLast(pathname, '/');
    if last == [] then DefaultPage else last
  }

  /** A link's `href` with any fragment dropped; a link without `href` has the
      empty target. */
  function LinkTarget(href: Option<string>): string {
    BeforeFirst(href.GetOr(""), '#')
  }

  /** A link is marked active when its target is exactly the current page. */
  predicate IsActiveLink(pathname: string, href: Option<string>) {
    LinkTarget(href) == CurrentPage(pathname)
  }

  /** The current page is never empty and never contains a `/`. */
  lemma CurrentPageShape(pathname: string)
    ensures CurrentPage(pathname) != [] && '/' !in CurrentPage(pathname)
  {
    AfterLastSpec(pathname, '/');
  }

  /** A link to the page itself is active, with or without a fragment. */
  lemma LinkToCurrentPageIsActive(dir: string, page: string, fragment: string)
    requires page != [] && '/' !in page && '#' !in page
    ensures IsActiveLink(dir + "/" + page, Some(page))
    ensures IsActiveLink(dir + "/" + page, Some(page + "#" + fragment))
  {
    AfterLastOfJoin(dir, '/', page);
    assert dir + "/" + page == dir + ['/'] + page;
    BeforeFirstOfJoin(page, '#', fragment);
    assert page + "#" + fragment == page + ['#'] + fragment;
    BeforeFirstSpec(page, '#');
  }

  /** On a path that ends in `/`, the link to `index.html` is the active one. */
  lemma DirectoryPathActivatesIndex(dir: string)
    ensures IsActiveLink(dir + "/", Some("index.html"))
  {
    assert (dir + "/")[|dir + "/"| - 1] == '/';
    BeforeFirstSpec("index.html", '#');
  }

  /** A link with no target (no `href`, an empty one, or a bare `#fragment`) is
      never active, and neither is one whose target holds a `/`, such as
      `./about.html` or `/about.html`. */
  lemma UnmatchableLinksNeverActive(pathname: string, href: Option<string>)
    requires LinkTarget(href) == [] || '/' in LinkTarget(href)
    ensures !IsActiveLink(pathname, href)
  {
    CurrentPageShape(pathname);
  }
}
