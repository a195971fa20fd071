/** The shared layout controller: the page id taken from the URL path, the
    sidebar's open state, the active marker on the sidebar menu links, and the
    two header dropdowns (notifications and profile) that are created on first
    use. The document is a `LayoutPage` object whose fields are the layout
    state and the CSS class markers the controller adds and removes. */
module Layout {
  import opened Wrappers
  import opened Text

  /** Viewports at most this wide start and stay with the sidebar closed. */
  const Breakpoint: int := 768

  /** The page id used when the path names no file. */
  const DefaultPage: string := "dashboard"

  // ---------------------------------------------------------------------------
  // Page id
  // ---------------------------------------------------------------------------

  /** The page id `initLayout` derives from `location.pathname`: the last
      `/`-separated segment with its first `.html` removed, or `"dashboard"` when
      nothing is left. It is never empty and never contains `/`. */
  function PageId(path: string): (page: string)
    ensures page != [] && '/' !in page
  {
    var segment := LastSegment(path, '/');
    LastSegmentIsSuffix(path, '/');
    var name := RemoveFirst(segment, ".html");
    if name == [] then DefaultPage else name
  }

  /** When `name` holds no `.html`, the `.html` written right after it is the
      first one in the segment, whatever follows. */
  lemma {:induction false} HtmlFirstOccurrence(name: string, rest: string)
    requires !Includes(name, ".html")
    ensures IndexOf(name + ".html" + rest, ".html") == Some(|name|)
  {
    var s := name + ".html" + rest;
    assert OccursAt(s, ".html", |name|) by {
      assert s[|name|..|name| + 5] == ".html";
    }
    forall j | 0 <= j < |name|
      ensures !OccursAt(s, ".html", j)
    {
      if j + 5 <= |name| {
        assert s[j..j + 5] == name[j..j + 5];
        assert !OccursAt(name, ".html", j);
      } else {
        // An occurrence straddling the end of `name` would put the dot that
        // starts the suffix at a position where `.html` has a letter.
        var k := |name| - j;
        assert s[j..j + 5][k] == s[|name|] == '.';
        assert ".html"[k] != '.';
      }
    }
  }

  /** Only the first `.html` of the last segment is cut out, wherever it sits:
      `/a.htmlb` has page id `ab`, and `/.html` has the default page id. */
  lemma PageIdRemovesFirstHtml(dir: string, name: string, rest: string)
    requires '/' !in name + ".html" + rest && !Includes(name, ".html")
    ensures PageId(dir + "/" + name + ".html" + rest) == if name + rest == [] then DefaultPage else name + rest
  {
    var segment := name + ".html" + rest;
    assert dir + "/" + name + ".html" + rest == dir + ['/'] + segment;
    LastSegmentAfterSeparator(dir, segment, '/');
    HtmlFirstOccurrence(name, rest);
    assert segment[..|name|] == name;
    assert segment[|name| + 5..] == rest;
  }

  /** A path ending in `/<name>.html`, where `name` is not empty and holds no
      `/` and no `.html`, has page id `name`. */
  lemma PageIdOfHtmlFile(dir: string, name: string)
    requires name != [] && '/' !in name && !Includes(name, ".html")
    ensures PageId(dir + "/" + name + ".html") == name
  {
    PageIdRemovesFirstHtml(dir, name, []);
    assert dir + "/" + name + ".html" + [] == dir + "/" + name + ".html";
  }

  /** A path whose last segment has no `.html` uses that segment as page id, and
      one that ends in `/` gets the default page id. */
  lemma PageIdOfPlainSegment(dir: string, segment: string)
    requires '/' !in segment && !Includes(segment, ".html")
    ensures PageId(dir + "/" + segment) == if segment == [] then DefaultPage else segment
  {
    assert dir + "/" + segment == dir + ['/'] + segment;
    LastSegmentAfterSeparator(dir, segment, '/');
  }

  // ---------------------------------------------------------------------------
  // Menu links
  // ---------------------------------------------------------------------------

  /** A sidebar menu link: its `href` attribute (absent or a string) and whether
      it carries the `sidebar__menu-link--active` class. */
  datatype Link = Link(href: Option<string>, active: bool)

  /** The rule of `setActivePage`: a link is active when its `href` is present,
      not empty, and contains the page id anywhere. */
  function IsActiveHref(href: Option<string>, page: string): (active: bool)
    ensures active <==> href.Some? && href.value != [] && exists i: nat :: OccursAt(href.value, page, i)
  {
    href.Some? && href.value != [] && Includes(href.value, page)
  }

  /** The link to the page's own file is marked active. */
  lemma OwnLinkIsActive(prefix: string, dir: string, name: string)
    requires name != [] && '/' !in name && !Includes(name, ".html")
    ensures IsActiveHref(Some(prefix + name + ".html"), PageId(dir + "/" + name + ".html"))
  {
    PageIdOfHtmlFile(dir, name);
    var href := prefix + name + ".html";
    assert OccursAt(href, name, |prefix|) by {
      assert href[|prefix|..|prefix| + |name|] == name;
    }
  }

  /** Matching is by substring, so a page id inside another page's file name
      marks that page's link as well. */
  lemma OverlappingPageNames()
    ensures IsActiveHref(Some("report.html"), "report")
    ensures IsActiveHref(Some("reports.html"), "report")
  {
  }

  // ---------------------------------------------------------------------------
  // Header dropdowns
  // ---------------------------------------------------------------------------

  /** One header control: whether the trigger button exists and carries its
      active class, and whether the dropdown panel exists and carries
      `dropdown--open`. */
  datatype HeaderMenu = HeaderMenu(buttonExists: bool, buttonActive: bool, dropdownExists: bool, dropdownOpen: bool)
  {
    /** What the controller maintains: a dropdown is only created next to an
        existing button, and the button is active exactly while its dropdown is open. */
    predicate Valid() {
      (dropdownExists ==> buttonExists)
      && (dropdownOpen ==> dropdownExists)
      && (buttonActive <==> dropdownOpen)
    }

    /** The effect of `closeAllDropdowns` on this control: the markers are
        removed from whichever of its elements exist. */
    function Closed(): (m: HeaderMenu)
      ensures m.buttonExists == buttonExists && m.dropdownExists == dropdownExists
      ensures Valid() ==> m.Valid() && !m.buttonActive && !m.dropdownOpen
    {
      HeaderMenu(buttonExists, if buttonExists then false else buttonActive,
                 dropdownExists, if dropdownExists then false else dropdownOpen)
    }

    /** The button gets its active class and the dropdown `dropdown--open`. */
    function Opened(): (m: HeaderMenu)
      ensures m.buttonExists == buttonExists && m.dropdownExists == dropdownExists
      ensures Valid() && dropdownExists ==> m.Valid() && m.dropdownOpen
    {
      HeaderMenu(buttonExists, true, dropdownExists, true)
    }
  }

  lemma ClosedIdempotent(m: HeaderMenu)
    ensures m.Closed().Closed() == m.Closed()
  {
  }

  // ---------------------------------------------------------------------------
  // The document and the layout state
  // ---------------------------------------------------------------------------

  class LayoutPage {
    /** `LayoutState.sidebarOpen`. */
    var sidebarOpen: bool
    /** `LayoutState.currentPage`. */
    var currentPage: string
    /** Whether the document has a `.sidebar` element. */
    const hasSidebar: bool
    /** Whether the sidebar carries the `sidebar--open` class. */
    var sidebarMarkedOpen: bool
    /** The `.sidebar__menu-link` elements in document order. */
    var links: seq<Link>
    /** `#notificationBtn` and `#notificationDropdown`. */
    var notification: HeaderMenu
    /** `#profileBtn` and `#profileDropdown`. */
    var profile: HeaderMenu

    ghost predicate Valid()
      reads this
    {
      notification.Valid() && profile.Valid()
    }

    twostate predicate SidebarKept()
      reads this
    {
      sidebarOpen == old(sidebarOpen) && sidebarMarkedOpen == old(sidebarMarkedOpen)
    }

    twostate predicate PageKept()
      reads this
    {
      currentPage == old(currentPage) && links == old(links)
    }

    twostate predicate MenusKept()
      reads this
    {
      notification == old(notification) && profile == old(profile)
    }

    /** The document as served, before any script runs: `LayoutState` has its
        initial values and neither dropdown exists yet. */
    constructor (hasSidebar: bool, sidebarMarkedOpen: bool, links: seq<Link>,
                 hasNotificationButton: bool, hasProfileButton: bool)
      ensures Valid()
      ensures this.sidebarOpen && this.currentPage == []
      ensures this.hasSidebar == hasSidebar && this.sidebarMarkedOpen == sidebarMarkedOpen
      ensures this.links == links
      ensures this.notification == HeaderMenu(hasNotificationButton, false, false, false)
      ensures this.profile == HeaderMenu(hasProfileButton, false, false, false)
    {
      this.sidebarOpen := true;
      this.currentPage := [];
      this.hasSidebar := hasSidebar;
      this.sidebarMarkedOpen := sidebarMarkedOpen;
      this.links := links;
      this.notification := HeaderMenu(hasNotificationButton, false, false, false);
      this.profile := HeaderMenu(hasProfileButton, false, false, false);
    }

    /** `initLayout`: the page id comes from the path. */
    method InitLayout(path: string)
      modifies this
      ensures currentPage == PageId(path) && currentPage != [] && '/' !in currentPage
      ensures links == old(links) && SidebarKept() && MenusKept()
    {
      currentPage := PageId(path);
    }

    /** `initSidebar`, apart from the listeners it registers: on a viewport at
        most `Breakpoint` wide an existing sidebar is closed; otherwise nothing changes. */
    method InitSidebar(width: int)
      modifies this
      ensures hasSidebar && width <= Breakpoint ==> !sidebarOpen && !sidebarMarkedOpen
      ensures !(hasSidebar && width <= Breakpoint) ==> SidebarKept()
      ensures PageKept() && MenusKept()
    {
      if !hasSidebar {
        return;
      }
      if width <= Breakpoint {
        sidebarOpen := false;
        sidebarMarkedOpen := false;
      }
    }

    /** The debounced resize callback: the state follows the new width whatever
        it was before, and the class follows it when the sidebar exists. */
    method OnResize(width: int)
      modifies this
      ensures sidebarOpen == (width > Breakpoint)
      ensures sidebarMarkedOpen == if hasSidebar then width > Breakpoint else old(sidebarMarkedOpen)
      ensures PageKept() && MenusKept()
    {
      if width > Breakpoint {
        sidebarOpen := true;
        if hasSidebar { sidebarMarkedOpen := true; }
      } else {
        sidebarOpen := false;
        if hasSidebar { sidebarMarkedOpen := false; }
      }
    }

    /** `setActivePage`: every link is marked active exactly when its `href`
        contains the current page id; the other links lose the marker, and the
        links themselves are unchanged. */
    method SetActivePage()
      modifies this
      ensures |links| == |old(links)|
      ensures forall i | 0 <= i < |links| ::
        links[i].href == old(links)[i].href && links[i].active == IsActiveHref(links[i].href, currentPage)
      ensures currentPage == old(currentPage) && SidebarKept() && MenusKept()
    {
      var i := 0;
      while i < |links|
        invariant 0 <= i <= |links| == |old(links)|
        invariant forall j | 0 <= j < |links| :: links[j].href == old(links)[j].href
        invariant forall j | 0 <= j < i :: links[j].active == IsActiveHref(links[j].href, currentPage)
        invariant currentPage == old(currentPage) && SidebarKept() && MenusKept()
      {
        var href := links[i].href;
        if href.Some? && href.value != [] && Includes(href.value, currentPage) {
          links := links[i := links[i].(active := true)];
        } else {
          links := links[i := links[i].(active := false)];
        }
        i := i + 1;
      }
    }

    /** `toggleSidebar`: with a sidebar the state flips and the class follows
        it; without one nothing changes. */
    method ToggleSidebar()
      modifies this
      ensures hasSidebar ==> sidebarOpen == !old(sidebarOpen) && sidebarMarkedOpen == sidebarOpen
      ensures !hasSidebar ==> SidebarKept()
      ensures PageKept() && MenusKept()
    {
      if !hasSidebar {
        return;
      }
      sidebarOpen := !sidebarOpen;
      if sidebarOpen {
        sidebarMarkedOpen := true;
      } else {
        sidebarMarkedOpen := false;
      }
    }

    /** The click listener on each menu link: on a narrow viewport it toggles the sidebar. */
    method OnMenuLinkClick(width: int)
      modifies this
      ensures hasSidebar && width <= Breakpoint ==> sidebarOpen == !old(sidebarOpen) && sidebarMarkedOpen == sidebarOpen
      ensures !(hasSidebar && width <= Breakpoint) ==> SidebarKept()
      ensures PageKept() && MenusKept()
    {
      if width <= Breakpoint {
        ToggleSidebar();
      }
    }

    /** `closeAllDropdowns`: the active and open markers are removed from both
        buttons and both dropdowns that exist; nothing is created or removed. */
    method CloseAllDropdowns()
      requires Valid()
      modifies this
      ensures Valid()
      ensures notification == old(notification).Closed() && profile == old(profile).Closed()
      ensures !notification.buttonActive && !notification.dropdownOpen
      ensures !profile.buttonActive && !profile.dropdownOpen
      ensures PageKept() && SidebarKept()
    {
      notification := notification.Closed();
      profile := profile.Closed();
    }

    /** `createNotificationDropdown`: with a button, the dropdown is added and
        (once its short timer fires) opened with the button active; without one
        nothing happens. The profile menu is left alone. */
    method CreateNotificationDropdown()
      requires Valid() && !notification.dropdownExists
      modifies this
      ensures Valid()
      ensures notification == if old(notification.buttonExists) then HeaderMenu(true, true, true, true) else old(notification)
      ensures profile == old(profile)
      ensures PageKept() && SidebarKept()
    {
      if !notification.buttonExists {
        return;
      }
      notification := notification.(dropdownExists := true).Opened();
    }

    /** `createProfileDropdown`, the same for the profile menu. */
    method CreateProfileDropdown()
      requires Valid() && !profile.dropdownExists
      modifies this
      ensures Valid()
      ensures profile == if old(profile.buttonExists) then HeaderMenu(true, true, true, true) else old(profile)
      ensures notification == old(notification)
      ensures PageKept() && SidebarKept()
    {
      if !profile.buttonExists {
        return;
      }
      profile := profile.(dropdownExists := true).Opened();
    }

    /** `toggleNotifications`. When the dropdown does not exist yet it is
        created and opened, and the profile menu is NOT closed. When it exists,
        both menus are closed first and the notifications reopen only if their
        button was not active, so a second click closes them. */
    method ToggleNotifications()
      requires Valid()
      modifies this
      ensures Valid()
      ensures !old(notification.dropdownExists) ==>
        notification == (if old(notification.buttonExists) then HeaderMenu(true, true, true, true) else old(notification))
        && profile == old(profile)
      ensures old(notification.dropdownExists) ==>
        notification.dropdownExists && notification.dropdownOpen == !old(notification.buttonActive)
        && profile == old(profile).Closed() && !profile.dropdownOpen && !profile.buttonActive
      ensures PageKept() && SidebarKept()
    {
      if !notification.dropdownExists {
        CreateNotificationDropdown();
        return;
      }
      var isActive := notification.buttonActive;
      CloseAllDropdowns();
      if !isActive {
        notification := notification.Opened();
      }
    }

    /** `toggleProfileMenu`, the same for the profile menu. */
    method ToggleProfileMenu()
      requires Valid()
      modifies this
      ensures Valid()
      ensures !old(profile.dropdownExists) ==>
        profile == (if old(profile.buttonExists) then HeaderMenu(true, true, true, true) else old(profile))
        && notification == old(notification)
      ensures old(profile.dropdownExists) ==>
        profile.dropdownExists && profile.dropdownOpen == !old(profile.buttonActive)
        && notification == old(notification).Closed() && !notification.dropdownOpen && !notification.buttonActive
      ensures PageKept() && SidebarKept()
    {
      if !profile.dropdownExists {
        CreateProfileDropdown();
        return;
      }
      var isActive := profile.buttonActive;
      CloseAllDropdowns();
      if !isActive {
        profile := profile.Opened();
      }
    }

    /** The document click listener: a click outside every header icon button
        and the profile control closes both dropdowns. */
    method OnDocumentClick(onHeaderControl: bool)
      requires Valid()
      modifies this
      ensures Valid()
      ensures !onHeaderControl ==> notification == old(notification).Closed() && profile == old(profile).Closed()
      ensures onHeaderControl ==> MenusKept()
      ensures PageKept() && SidebarKept()
    {
      if !onHeaderControl {
        CloseAllDropdowns();
      }
    }

    /** The `DOMContentLoaded` handler: `initLayout`, `initSidebar`,
        `initHeader` and `initResponsive` (which only register listeners), then
        `setActivePage`. */
    method OnContentLoaded(path: string, width: int)
      modifies this
      ensures currentPage == PageId(path)
      ensures sidebarOpen == if hasSidebar && width <= Breakpoint then false else old(sidebarOpen)
      ensures sidebarMarkedOpen == if hasSidebar && width <= Breakpoint then false else old(sidebarMarkedOpen)
      ensures |links| == |old(links)|
      ensures forall i | 0 <= i < |links| ::
        links[i].href == old(links)[i].href && links[i].active == IsActiveHref(links[i].href, currentPage)
      ensures MenusKept()
    {
      InitLayout(path);
      InitSidebar(width);
      SetActivePage();
    }
  }

  // ---------------------------------------------------------------------------
  // Scenarios
  // ---------------------------------------------------------------------------

  /** On a page loaded at 500 pixels the sidebar starts closed, opens when the
      viewport grows to 900 pixels and closes again at 600. */
  method SidebarFollowsViewport() returns (states: seq<bool>)
    ensures states == [false, true, false]
  {
    var page := new LayoutPage(true, true, [], true, true);
    page.OnContentLoaded("/pages/dashboard.html", 500);
    var loaded := page.sidebarOpen;
    page.OnResize(900);
    var wide := page.sidebarOpen;
    page.OnResize(600);
    states := [loaded, wide, page.sidebarOpen];
  }

  /** Once both dropdowns exist, opening one closes the other, and clicking the
      open dropdown's own button closes it. */
  method DropdownsExclusiveOnceCreated() returns (afterProfile: (bool, bool), afterSecondClick: (bool, bool))
    ensures afterProfile == (false, true)
    ensures afterSecondClick == (false, false)
  {
    var page := new LayoutPage(true, true, [], true, true);
    page.ToggleNotifications();
    page.ToggleProfileMenu();
    page.OnDocumentClick(false);
    page.ToggleNotifications();
    page.ToggleProfileMenu();
    afterProfile := (page.notification.dropdownOpen, page.profile.dropdownOpen);
    page.ToggleProfileMenu();
    afterSecondClick := (page.notification.dropdownOpen, page.profile.dropdownOpen);
  }

  /** The first click on a button creates its dropdown without closing the
      other one, so both dropdowns can be open at once. */
  method LazyCreationKeepsOtherOpen() returns (notificationOpen: bool, profileOpen: bool)
    ensures notificationOpen && profileOpen
  {
    var page := new LayoutPage(true, true, [], true, true);
    page.ToggleProfileMenu();
    page.ToggleNotifications();
    notificationOpen, profileOpen := page.notification.dropdownOpen, page.profile.dropdownOpen;
  }
}
