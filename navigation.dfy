/** Highlighting the navigation link of the current page: the page is the
    last `/`-separated segment of the location's path, and exactly the links
    whose `href` attribute names it carry the `active` class. */
module Navigation {
  import opened Wrappers
  import opened JsText

  const DefaultPage := "index.html"

  /** `window.location.pathname.split('/').pop() || 'index.html'` */
  function CurrentPage(pathname: string): (page: string)
    ensures page != "" && '/' !in page
  {
    var segments := Split(pathname, '/');
    var last := segments[|segments| - 1];
    if last == "" then DefaultPage else last
  }

  /** The current page is never empty and never holds a `/`. A path that is
      empty or ends in `/` names the default page; any other path names its
      last segment, the longest `/`-free suffix. */
  lemma CurrentPageIsLastSegment(pathname: string)
    ensures var page := CurrentPage(pathname);
      page != "" && '/' !in page &&
      (pathname == [] || pathname[|pathname| - 1] == '/' ==> page == DefaultPage) &&
      (pathname != [] && pathname[|pathname| - 1] != '/' ==>
         |page| <= |pathname| && pathname[|pathname| - |page|..] == page &&
         (|page| == |pathname| || pathname[|pathname| - |page| - 1] == '/'))
  {
    var segments := Split(pathname, '/');
    var last := segments[|segments| - 1];
    LastPieceIsSuffix(pathname, '/');
    assert '/' !in last;
    assert '/' !in DefaultPage;
    if pathname != [] && last != "" {
      assert pathname[|pathname| - 1] == last[|last| - 1];
    }
  }

  /** The test each link goes through, as written: equal to the current page,
      or the two special cases for the default page. */
  predicate IsActiveLink(linkPage: Option<string>, currentPage: string) {
    linkPage == Some(currentPage) ||
    (currentPage == "" && linkPage == Some(DefaultPage)) ||
    (currentPage == DefaultPage && linkPage == Some(DefaultPage))
  }

  /** The two special cases add nothing: the current page is never empty, and
      a default-page link on the default page is already equal to it. A link
      without an `href` is never active. */
  lemma SpecialCasesAddNothing(linkPage: Option<string>, pathname: string)
    ensures IsActiveLink(linkPage, CurrentPage(pathname)) <==> linkPage == Some(CurrentPage(pathname))
  {
    CurrentPageIsLastSegment(pathname);
  }

  /** A navigation anchor: its `href` attribute (`None` when absent) and
      whether its class list holds `active`. */
  class NavLink {
    const href: Option<string>
    var active: bool

    constructor (href: Option<string>, active: bool)
      ensures this.href == href && this.active == active
    {
      this.href := href;
      this.active := active;
    }
  }

  /** `setActiveNavigation()`: every link loses `active`, and gets it back
      exactly when its `href` equals the current page. The same link may
      appear twice in `links`; it ends in the same state either way. */
  method SetActiveNavigation(pathname: string, links: seq<NavLink>)
    modifies set l | l in links
    ensures forall i :: 0 <= i < |links| ==>
      links[i].active == (links[i].href == Some(CurrentPage(pathname)))
  {
    var currentPage := CurrentPage(pathname);
    for i := 0 to |links|
      invariant forall k :: 0 <= k < i ==> links[k].active == IsActiveLink(links[k].href, currentPage)
    {
      var link := links[i];
      link.active := false;
      var linkPage := link.href;
      if IsActiveLink(linkPage, currentPage) {
        link.active := true;
      }
    }
    forall i | 0 <= i < |links|
      ensures links[i].active == (links[i].href == Some(currentPage))
    {
      SpecialCasesAddNothing(links[i].href, pathname);
    }
  }
}
