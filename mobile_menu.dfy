/** The mobile navigation menu: the toggle button's `active` class, the
    navigation list's `mobile-active` class and the body's `overflow` style,
    changed by five event handlers. */
module MobileMenu {

  /** Above this viewport width the page is in desktop layout. */
  const DesktopBreakpoint := 768

  /** The three pieces of page state the handlers touch. */
  datatype MenuState = MenuState(toggleActive: bool, navOpen: bool, overflow: string)

  /** The events the handlers listen to. `DocumentClick` says whether the
      click target lies inside the toggle and inside the navigation list. */
  datatype MenuEvent =
    | ToggleClick
    | LinkClick
    | DocumentClick(insideToggle: bool, insideNav: bool)
    | Resize(innerWidth: int)
    | KeyDown(key: string)

  /** The three flags agree: both classes are set together, and the body
      scroll is locked exactly while the menu is open. */
  predicate InAgreement(s: MenuState) {
    s.toggleActive == s.navOpen &&
    s.overflow == (if s.navOpen then "hidden" else "")
  }

  /** Both classes removed and the body's overflow cleared. */
  const Closed := MenuState(false, false, "")

  /** The effect of one event's handler. */
  function Step(s: MenuState, e: MenuEvent): MenuState {
    match e
    case ToggleClick =>
      var open := !s.navOpen;
      MenuState(!s.toggleActive, open, if open then "hidden" else "")
    case LinkClick => Closed
    case DocumentClick(insideToggle, insideNav) =>
      if !insideToggle && !insideNav then Closed else s
    case Resize(width) =>
      if width > DesktopBreakpoint then Closed else s
    case KeyDown(key) =>
      if key == "Escape" && s.navOpen then Closed else s
  }

  /** The effect of a sequence of events, in order. */
  function Run(s: MenuState, events: seq<MenuEvent>): MenuState
    decreases |events|
  {
    if events == [] then s else Run(Step(s, events[0]), events[1..])
  }

  /** What each handler promises. The toggle flips both classes and locks
      scrolling exactly when the menu is now open; a link click, a click
      outside both elements, a resize to desktop width and Escape on an open
      menu close it; another key or a narrow resize changes nothing. Only the
      toggle can open the menu. */
  lemma StepCases(s: MenuState, e: MenuEvent)
    ensures e == ToggleClick ==>
      Step(s, e).toggleActive == !s.toggleActive && Step(s, e).navOpen == !s.navOpen &&
      (Step(s, e).overflow == "hidden" <==> Step(s, e).navOpen)
    ensures (e.LinkClick? || (e.DocumentClick? && !e.insideToggle && !e.insideNav) ||
             (e.Resize? && e.innerWidth > DesktopBreakpoint) ||
             (e.KeyDown? && e.key == "Escape" && s.navOpen)) ==>
      Step(s, e) == Closed
    ensures ((e.KeyDown? && e.key != "Escape") || (e.Resize? && e.innerWidth <= DesktopBreakpoint) ||
             (e.DocumentClick? && (e.insideToggle || e.insideNav))) ==>
      Step(s, e) == s
    ensures Step(s, e).navOpen && !s.navOpen ==> e == ToggleClick
  {
  }

  /** Every handler keeps the flags in agreement. */
  lemma StepKeepsAgreement(s: MenuState, e: MenuEvent)
    requires InAgreement(s)
    ensures InAgreement(Step(s, e))
  {
  }

  /** If the flags start in agreement, they agree after any sequence of
      events. */
  lemma {:induction false} RunKeepsAgreement(s: MenuState, events: seq<MenuEvent>)
    requires InAgreement(s)
    ensures InAgreement(Run(s, events))
    decreases |events|
  {
    if events != [] {
      StepKeepsAgreement(s, events[0]);
      RunKeepsAgreement(Step(s, events[0]), events[1..]);
    }
  }

  /** Running some events and then one more is that event's step applied to
      the state the first events reached. */
  lemma {:induction false} RunSnoc(s: MenuState, events: seq<MenuEvent>, e: MenuEvent)
    ensures Run(s, events + [e]) == Step(Run(s, events), e)
    decreases |events|
  {
    if events == [] {
      assert events + [e] == [e];
      assert [e][1..] == [];
    } else {
      assert (events + [e])[0] == events[0];
      assert (events + [e])[1..] == events[1..] + [e];
      RunSnoc(Step(s, events[0]), events[1..], e);
    }
  }

  /** A click that goes to the toggle, then bubbles to the
      document with a target inside the toggle, toggles the menu: the document
      handler leaves it alone. A click on a link, which bubbles with a target
      inside the navigation list, closes it. */
  lemma BubblingClicks(s: MenuState)
    ensures Run(s, [ToggleClick, DocumentClick(true, false)]) == Step(s, ToggleClick)
    ensures Run(s, [LinkClick, DocumentClick(false, true)]) == Closed
  {
    RunSnoc(s, [ToggleClick], DocumentClick(true, false));
    RunSnoc(s, [LinkClick], DocumentClick(false, true));
    assert [ToggleClick] + [DocumentClick(true, false)] == [ToggleClick, DocumentClick(true, false)];
    assert [LinkClick] + [DocumentClick(false, true)] == [LinkClick, DocumentClick(false, true)];
  }

  /** The page's menu: the three flags as fields, one method per handler. */
  class Menu {
    var toggleActive: bool
    var navMobileActive: bool
    var bodyOverflow: string

    function State(): MenuState
      reads this
    {
      MenuState(toggleActive, navMobileActive, bodyOverflow)
    }

    ghost predicate Valid()
      reads this
    {
      InAgreement(State())
    }

    /** The state the page is in before any handler runs. */
    constructor (toggleActive: bool, navMobileActive: bool, bodyOverflow: string)
      ensures State() == MenuState(toggleActive, navMobileActive, bodyOverflow)
    {
      this.toggleActive := toggleActive;
      this.navMobileActive := navMobileActive;
      this.bodyOverflow := bodyOverflow;
    }

    /** Click on the toggle button. */
    method OnToggleClick()
      modifies this
      ensures toggleActive == !old(toggleActive) && navMobileActive == !old(navMobileActive)
      ensures bodyOverflow == if navMobileActive then "hidden" else ""
      ensures State() == Step(old(State()), ToggleClick)
      ensures old(Valid()) ==> Valid()
    {
      toggleActive := !toggleActive;
      navMobileActive := !navMobileActive;
      if navMobileActive {
        bodyOverflow := "hidden";
      } else {
        bodyOverflow := "";
      }
    }

    /** Removes both classes and clears the body's overflow. */
    method Close()
      modifies this
      ensures State() == Closed
    {
      toggleActive := false;
      navMobileActive := false;
      bodyOverflow := "";
    }

    /** Click on one of the navigation links. */
    method OnLinkClick()
      modifies this
      ensures State() == Closed
      ensures State() == Step(old(State()), LinkClick)
      ensures Valid()
    {
      Close();
    }

    /** Click anywhere in the document, after the element handlers ran. */
    method OnDocumentClick(insideToggle: bool, insideNav: bool)
      modifies this
      ensures State() == if !insideToggle && !insideNav then Closed else old(State())
      ensures State() == Step(old(State()), DocumentClick(insideToggle, insideNav))
      ensures old(Valid()) ==> Valid()
    {
      if !insideToggle && !insideNav {
        Close();
      }
    }

    /** The window was resized to `innerWidth`. */
    method OnResize(innerWidth: int)
      modifies this
      ensures State() == if innerWidth > DesktopBreakpoint then Closed else old(State())
      ensures State() == Step(old(State()), Resize(innerWidth))
      ensures old(Valid()) ==> Valid()
    {
      if innerWidth > DesktopBreakpoint {
        Close();
      }
    }

    /** A key was pressed. */
    method OnKeyDown(key: string)
      modifies this
      ensures State() == if key == "Escape" && old(navMobileActive) then Closed else old(State())
      ensures State() == Step(old(State()), KeyDown(key))
      ensures old(Valid()) ==> Valid()
    {
      if key == "Escape" && navMobileActive {
        Close();
      }
    }
  }
}
