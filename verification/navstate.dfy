/** The two pieces of state the header keeps after `decorate`: the mobile
    menu (header.js, `toggleMobileNav` and the listeners that call it) and
    the accordion of submenus (header.js, `toggleSubmenu`). */
module NavState {

  // ---------------------------------------------------------------------
  // mobile menu

  /** What `toggleMobileNav` reads and writes: the `is-visible` class on
      the nav and on the overlay, the menu button's `aria-expanded`, and
      `document.body.style.overflow`. */
  datatype Menu = Menu(navVisible: bool, overlayVisible: bool, ariaExpanded: string, overflow: string)

  /** Right after `decorate`: both hidden, the button collapsed, the body's
      overflow untouched (empty). */
  const InitialMenu: Menu := Menu(false, false, "false", "")

  /** The attributes agree with the nav's visibility. */
  predicate MenuConsistent(m: Menu) {
    && m.overlayVisible == m.navVisible
    && (m.navVisible ==> m.ariaExpanded == "true" && m.overflow == "hidden")
    && (!m.navVisible ==> m.ariaExpanded == "false")
  }

  /** `toggleMobileNav`: open when closed, close when open. */
  function ToggleMenu(m: Menu): (r: Menu)
    ensures r.navVisible == !m.navVisible
    ensures MenuConsistent(r)
    ensures !r.navVisible ==> r.overflow == ""
  {
    if m.navVisible then Menu(false, false, "false", "")
    else Menu(true, true, "true", "hidden")
  }

  /** The events that reach `toggleMobileNav`. */
  datatype MenuEvent =
    | MenuButtonClick
    | CloseButtonClick
    | OverlayClick
    | KeyDown(key: string)
    | BreakpointChange(desktop: bool)

  function OnMenuEvent(m: Menu, e: MenuEvent): Menu {
    match e
    case MenuButtonClick => ToggleMenu(m)
    case CloseButtonClick => ToggleMenu(m)
    case OverlayClick => ToggleMenu(m)
    case KeyDown(key) => if key == "Escape" && m.navVisible then ToggleMenu(m) else m
    case BreakpointChange(desktop) => if desktop && m.navVisible then ToggleMenu(m) else m
  }

  /** Escape and a change to desktop width only ever close the menu: on a
      closed menu, and for any other key, nothing changes. */
  lemma GuardedEventsOnlyClose(m: Menu, e: MenuEvent)
    requires e.KeyDown? || e.BreakpointChange?
    ensures !m.navVisible ==> OnMenuEvent(m, e) == m
    ensures m.navVisible && (e == KeyDown("Escape") || e == BreakpointChange(true)) ==>
      OnMenuEvent(m, e) == Menu(false, false, "false", "")
    ensures e.KeyDown? && e.key != "Escape" ==> OnMenuEvent(m, e) == m
    ensures e == BreakpointChange(false) ==> OnMenuEvent(m, e) == m
  {
  }

  /** Every event keeps the attributes in agreement with the visibility. */
  lemma MenuEventPreservesConsistency(m: Menu, e: MenuEvent)
    requires MenuConsistent(m)
    ensures MenuConsistent(OnMenuEvent(m, e))
  {
  }

  /** The menu's state after a sequence of events. */
  function RunMenu(m: Menu, es: seq<MenuEvent>): Menu
    decreases |es|
  {
    if es == [] then m else RunMenu(OnMenuEvent(m, es[0]), es[1..])
  }

  /** Whatever events arrive, the attributes always agree with the
      visibility. */
  lemma {:induction false} MenuAlwaysConsistent(es: seq<MenuEvent>)
    ensures MenuConsistent(RunMenu(InitialMenu, es))
  {
    MenuFromConsistent(InitialMenu, es);
  }

  lemma {:induction false} MenuFromConsistent(m: Menu, es: seq<MenuEvent>)
    requires MenuConsistent(m)
    ensures MenuConsistent(RunMenu(m, es))
    decreases |es|
  {
    if es != [] {
      MenuEventPreservesConsistency(m, es[0]);
      MenuFromConsistent(OnMenuEvent(m, es[0]), es[1..]);
    }
  }

  /** Two toggles from a consistent state come back to it, except that a
      close always leaves the overflow empty. */
  lemma ToggleTwice(m: Menu)
    requires MenuConsistent(m)
    ensures m.navVisible ==> ToggleMenu(ToggleMenu(m)) == m
    ensures !m.navVisible ==> ToggleMenu(ToggleMenu(m)) == m.(overflow := "")
  {
  }

  // ---------------------------------------------------------------------
  // submenu accordion

  /** One accordion button's `aria-expanded` and its submenu's `hidden`. */
  datatype Submenu = Submenu(ariaExpanded: string, hidden: bool)

  /** As `decorate` leaves each accordion: collapsed and hidden. */
  const ClosedSubmenu: Submenu := Submenu("false", true)

  function BoolString(b: bool): string {
    if b then "true" else "false"
  }

  predicate IsExpanded(s: Submenu) {
    s.ariaExpanded == "true"
  }

  /** `toggleSubmenu` on the `i`-th accordion button of the nav. */
  function ToggleSubmenu(ss: seq<Submenu>, i: nat): (r: seq<Submenu>)
    requires i < |ss|
    ensures |r| == |ss|
    ensures IsExpanded(r[i]) == !IsExpanded(ss[i]) && r[i].hidden == IsExpanded(ss[i])
    ensures forall j :: 0 <= j < |r| && j != i ==> r[j] == ClosedSubmenu
  {
    seq(|ss|, j requires 0 <= j < |ss| =>
      if j == i then Submenu(BoolString(!IsExpanded(ss[i])), IsExpanded(ss[i])) else ClosedSubmenu)
  }

  /** Each submenu is hidden exactly when its button is not expanded, and
      at most one is expanded. */
  predicate AccordionConsistent(ss: seq<Submenu>) {
    && (forall j :: 0 <= j < |ss| ==> ss[j].hidden == !IsExpanded(ss[j]))
    && (forall j, k :: 0 <= j < |ss| && 0 <= k < |ss| && IsExpanded(ss[j]) && IsExpanded(ss[k]) ==> j == k)
  }

  /** After any toggle the accordion is consistent, whatever it was
      before, and the other buttons are collapsed. */
  lemma ToggleSubmenuConsistent(ss: seq<Submenu>, i: nat)
    requires i < |ss|
    ensures AccordionConsistent(ToggleSubmenu(ss, i))
    ensures forall j :: 0 <= j < |ss| && j != i ==> !IsExpanded(ToggleSubmenu(ss, i)[j])
  {
  }

  /** Toggling the same button twice from a consistent state restores the
      accordion when that button was the expanded one, and otherwise leaves
      every submenu closed. */
  lemma ToggleSubmenuTwice(ss: seq<Submenu>, i: nat)
    requires i < |ss| && AccordionConsistent(ss)
    requires forall j :: 0 <= j < |ss| ==> ss[j].ariaExpanded == "true" || ss[j].ariaExpanded == "false"
    ensures IsExpanded(ss[i]) ==> ToggleSubmenu(ToggleSubmenu(ss, i), i) == ss
    ensures !IsExpanded(ss[i]) ==> ToggleSubmenu(ToggleSubmenu(ss, i), i) == seq(|ss|, _ => ClosedSubmenu)
  {
    var once := ToggleSubmenu(ss, i);
    var twice := ToggleSubmenu(once, i);
    if IsExpanded(ss[i]) {
      forall j | 0 <= j < |ss| ensures twice[j] == ss[j] {
        if j != i {
          assert !IsExpanded(ss[j]);
        }
      }
    } else {
      assert forall j :: 0 <= j < |ss| ==> twice[j] == ClosedSubmenu;
    }
  }

  /** Initially every submenu is closed, which is consistent. */
  lemma InitialAccordionConsistent(n: nat)
    ensures AccordionConsistent(seq(n, _ => ClosedSubmenu))
  {
  }
}
