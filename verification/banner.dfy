/** The accordion of the government banner (blocks/banner/banner.js): the
    "Here's how you know" button and the content it shows and hides. */
module Banner {
  import opened NavState

  /** As `decorate` leaves it: `aria-expanded="false"`, content hidden. */
  const InitialBanner: Submenu := ClosedSubmenu

  /** The button's click handler. */
  function Click(s: Submenu): (r: Submenu)
    ensures IsExpanded(r) == !IsExpanded(s)
    ensures r.hidden == IsExpanded(s)
    ensures r.ariaExpanded == "true" || r.ariaExpanded == "false"
  {
    Submenu(BoolString(!IsExpanded(s)), IsExpanded(s))
  }

  /** The banner behaves as a one-button header accordion. */
  lemma ClickIsOneButtonAccordion(s: Submenu)
    ensures [Click(s)] == ToggleSubmenu([s], 0)
  {
  }

  /** A click leaves the content hidden exactly when the button is
      collapsed, whatever the state before. */
  lemma ClickMakesConsistent(s: Submenu)
    ensures Click(s).hidden == !IsExpanded(Click(s))
  {
  }

  /** Two clicks restore any state reachable from the initial one. */
  lemma ClickTwice(s: Submenu)
    requires s.hidden == !IsExpanded(s)
    requires s.ariaExpanded == "true" || s.ariaExpanded == "false"
    ensures Click(Click(s)) == s
  {
  }

  /** The state after `n` clicks. */
  function Clicks(n: nat): Submenu {
    if n == 0 then InitialBanner else Click(Clicks(n - 1))
  }

  /** After an even number of clicks the banner is collapsed, after an odd
      number expanded, and the content is hidden iff collapsed. */
  lemma {:induction false} ClicksAlternate(n: nat)
    ensures IsExpanded(Clicks(n)) <==> n % 2 == 1
    ensures Clicks(n).hidden == !IsExpanded(Clicks(n))
    ensures Clicks(n).ariaExpanded == "true" || Clicks(n).ariaExpanded == "false"
  {
    if n > 0 {
      ClicksAlternate(n - 1);
    }
  }
}
