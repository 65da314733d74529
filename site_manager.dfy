/**
 * `SiteManager` (script.js): the page controller. The DOM is reduced to the
 * class flags it toggles; timers, listeners and events to the state that
 * says whether they are armed, bound or emitted.
 */
module Site {
  import opened Wrappers
  import opened Slides
  import opened Dropdowns

  /** Viewport widths at or below this are the mobile layout. */
  const MobileBreakpoint: int := 768

  class SiteManager {
    /** Carousel: `currentSlide`, the `active` class of each slide and indicator, emitted `slideChange` events. */
    var currentSlide: nat
    const slides: array<bool>
    const indicators: array<bool>
    var events: seq<Event>

    /** `autoPlayInterval`, the host's armed intervals, and the id the host hands out next. */
    var autoPlayInterval: Option<nat>
    var liveTimers: set<nat>
    var nextTimerId: nat

    /** Layout mode and the `active` class of `.main-nav` and `.mobile-menu-toggle`. */
    var isMobile: bool
    var navActive: bool
    var toggleActive: bool

    /**
     * The `active` class of each `.dropdown`, how often `initializeDropdowns`
     * ran, and which dropdown listeners are attached: the mobile click
     * handler on each toggle, the desktop hover handlers on each dropdown,
     * and the document-wide outside-click handler.
     */
    const dropdowns: array<bool>
    var dropdownInits: nat
    var clickBound: bool
    var hoverBound: bool
    var outsideClickBound: bool

    ghost predicate Valid()
      reads this
    {
      && slides != indicators && dropdowns != slides && dropdowns != indicators
      && slides.Length == indicators.Length
      && (if slides.Length == 0 then currentSlide == 0 else currentSlide < slides.Length)
      // the auto-play timer is armed only on a page with slides, and is the only live interval
      && (autoPlayInterval.Some? ==> slides.Length > 0)
      && liveTimers == (if autoPlayInterval.Some? then {autoPlayInterval.value} else {})
      && (forall t :: t in liveTimers ==> 0 < t < nextTimerId)
      && 0 < nextTimerId
      // nav and hamburger toggle are flipped together
      && navActive == toggleActive
      // the dropdown handlers match the current layout mode
      && clickBound == isMobile
      && (isMobile ==> outsideClickBound)
      && (!isMobile ==> hoverBound)
    }

    /** The carousel state as a value. */
    ghost function View(): (c: Carousel)
      reads this, slides, indicators
      requires Valid()
      ensures WellFormed(c)
    {
      Carousel(currentSlide, slides[..], indicators[..], events)
    }

    /**
     * Page load: reads the slide, indicator and dropdown classes from the
     * markup (the menu starts closed), arms auto-play when there are slides
     * and binds the dropdown handlers for the initial layout.
     */
    constructor (slideFlags: seq<bool>, indicatorFlags: seq<bool>, dropdownFlags: seq<bool>, viewportWidth: int)
      requires |slideFlags| == |indicatorFlags|
      ensures Valid()
      ensures fresh(slides) && fresh(indicators) && fresh(dropdowns)
      ensures View() == Carousel(0, slideFlags, indicatorFlags, [])
      ensures dropdowns[..] == dropdownFlags
      ensures isMobile == (viewportWidth <= MobileBreakpoint)
      ensures !navActive && !toggleActive
      ensures autoPlayInterval.Some? <==> |slideFlags| > 0
      ensures dropdownInits == 1
      ensures clickBound == isMobile && hoverBound == !isMobile && outsideClickBound == isMobile
    {
      slides := new bool[|slideFlags|](i requires 0 <= i < |slideFlags| => slideFlags[i]);
      indicators := new bool[|indicatorFlags|](i requires 0 <= i < |indicatorFlags| => indicatorFlags[i]);
      dropdowns := new bool[|dropdownFlags|](i requires 0 <= i < |dropdownFlags| => dropdownFlags[i]);
      currentSlide := 0;
      events := [];
      autoPlayInterval := None;
      liveTimers := {};
      nextTimerId := 1;
      var mobile := viewportWidth <= MobileBreakpoint;
      isMobile := mobile;
      navActive, toggleActive := false, false;
      dropdownInits := 1;
      clickBound := mobile;
      hoverBound := !mobile;
      outsideClickBound := mobile;
      new;
      if slides.Length > 0 {
        StartAutoPlay();
      }
    }

    /** `goToSlide`. */
    method GoToSlide(index: int)
      requires Valid()
      modifies this`currentSlide, this`events, slides, indicators
      ensures Valid()
      ensures View() == GoTo(old(View()), index)
    {
      if index < 0 || index >= slides.Length {
        return;
      }
      slides[currentSlide] := false;
      indicators[currentSlide] := false;
      currentSlide := index;
      slides[currentSlide] := true;
      indicators[currentSlide] := true;
      events := events + [SlideChange(currentSlide)];
    }

    /** `nextSlide`; with no slides the source divides by zero. */
    method NextSlide()
      requires Valid() && slides.Length > 0
      modifies this`currentSlide, this`events, slides, indicators
      ensures Valid()
      ensures View() == Next(old(View()))
    {
      GoToSlide(NextIndex(currentSlide, slides.Length));
    }

    /** `prevSlide`. */
    method PrevSlide()
      requires Valid()
      modifies this`currentSlide, this`events, slides, indicators
      ensures Valid()
      ensures View() == Prev(old(View()))
    {
      GoToSlide(PrevIndex(currentSlide, slides.Length));
    }

    /** `startAutoPlay`: arms one interval unless one is armed already. */
    method StartAutoPlay()
      requires Valid() && slides.Length > 0
      modifies this`autoPlayInterval, this`liveTimers, this`nextTimerId
      ensures Valid()
      ensures autoPlayInterval.Some? && |liveTimers| == 1
      ensures old(autoPlayInterval).Some? ==>
                autoPlayInterval == old(autoPlayInterval) && liveTimers == old(liveTimers) && nextTimerId == old(nextTimerId)
      ensures old(autoPlayInterval).None? ==>
                autoPlayInterval == Some(old(nextTimerId)) && liveTimers == {old(nextTimerId)}
    {
      if autoPlayInterval.Some? {
        return;
      }
      var id := nextTimerId;
      nextTimerId := nextTimerId + 1;
      liveTimers := liveTimers + {id};
      autoPlayInterval := Some(id);
    }

    /** `stopAutoPlay`: clears the armed interval, if any. */
    method StopAutoPlay()
      requires Valid()
      modifies this`autoPlayInterval, this`liveTimers
      ensures Valid()
      ensures autoPlayInterval == None && liveTimers == {}
    {
      if autoPlayInterval.Some? {
        liveTimers := liveTimers - {autoPlayInterval.value};
        autoPlayInterval := None;
      }
    }

    /** One firing of the auto-play interval: `nextSlide` while it is armed. */
    method AutoPlayTick()
      requires Valid()
      modifies this`currentSlide, this`events, slides, indicators
      ensures Valid()
      ensures View() == if old(autoPlayInterval).Some? then Next(old(View())) else old(View())
    {
      if autoPlayInterval.Some? {
        NextSlide();
      }
    }

    /**
     * `handleSwipe`, given the start and end x coordinates of the touch;
     * a forward swipe on a page without slides divides by zero in the source.
     */
    method HandleSwipe(startX: int, endX: int)
      requires Valid()
      requires SwipeDecision(startX, endX) == SwipeNext ==> slides.Length > 0
      modifies this`currentSlide, this`events, slides, indicators
      ensures Valid()
      ensures View() == ApplySwipe(old(View()), startX, endX)
    {
      var diff := startX - endX;
      var magnitude := if diff < 0 then -diff else diff;
      if magnitude > SwipeThreshold {
        if diff > 0 {
          NextSlide();
        } else {
          PrevSlide();
        }
      }
    }

    /** `toggleMobileMenu`: flips the nav and the hamburger toggle together. */
    method ToggleMobileMenu()
      requires Valid()
      modifies this`navActive, this`toggleActive
      ensures Valid()
      ensures navActive == !old(navActive) && toggleActive == !old(toggleActive)
    {
      navActive := !navActive;
      toggleActive := !toggleActive;
    }

    /** `closeMobileMenu`. */
    method CloseMobileMenu()
      modifies this`navActive, this`toggleActive
      ensures !navActive && !toggleActive
    {
      navActive := false;
      toggleActive := false;
    }

    /** `updateMobileMenu`: outside the mobile layout the menu is closed. */
    method UpdateMobileMenu()
      modifies this`navActive, this`toggleActive
      ensures !isMobile ==> !navActive && !toggleActive
      ensures isMobile ==> navActive == old(navActive) && toggleActive == old(toggleActive)
    {
      if !isMobile {
        CloseMobileMenu();
      }
    }

    /**
     * The document click listener of the mobile menu: a click outside both
     * the nav and the toggle closes the menu.
     */
    method MenuOutsideClick(inNav: bool, inToggle: bool)
      requires Valid()
      modifies this`navActive, this`toggleActive
      ensures Valid()
      ensures !inNav && !inToggle ==> !navActive && !toggleActive
      ensures inNav || inToggle ==> navActive == old(navActive) && toggleActive == old(toggleActive)
    {
      if !inNav && !inToggle {
        CloseMobileMenu();
      }
    }

    /** `handleKeyboard`: arrows move the carousel, Escape closes the menu, other keys do nothing. */
    method HandleKeyboard(key: string)
      requires Valid()
      requires key == "ArrowRight" ==> slides.Length > 0
      modifies this`currentSlide, this`events, slides, indicators, this`navActive, this`toggleActive
      ensures Valid()
      ensures key == "ArrowLeft" ==>
                View() == Prev(old(View())) && navActive == old(navActive) && toggleActive == old(toggleActive)
      ensures key == "ArrowRight" ==>
                View() == Next(old(View())) && navActive == old(navActive) && toggleActive == old(toggleActive)
      ensures key == "Escape" ==> View() == old(View()) && !navActive && !toggleActive
      ensures key != "ArrowLeft" && key != "ArrowRight" && key != "Escape" ==>
                View() == old(View()) && navActive == old(navActive) && toggleActive == old(toggleActive)
    {
      if key == "ArrowLeft" {
        PrevSlide();
      } else if key == "ArrowRight" {
        NextSlide();
      } else if key == "Escape" {
        CloseMobileMenu();
      }
    }

    /**
     * `initializeDropdowns`: the toggles are replaced by clones, which drops
     * their click handlers; then the handlers of the current mode are added.
     * The hover handlers sit on the dropdown element itself and the
     * outside-click handler is only replaced in mobile mode, so neither is
     * ever removed.
     */
    method InitializeDropdowns()
      modifies this`dropdownInits, this`clickBound, this`hoverBound, this`outsideClickBound
      ensures dropdownInits == old(dropdownInits) + 1
      ensures clickBound == isMobile
      ensures hoverBound == (old(hoverBound) || !isMobile)
      ensures outsideClickBound == (old(outsideClickBound) || isMobile)
    {
      dropdownInits := dropdownInits + 1;
      clickBound := isMobile;
      if !isMobile {
        hoverBound := true;
      } else {
        outsideClickBound := true;
      }
    }

    /**
     * `handleResize`: recompute the layout mode, close the menu outside the
     * mobile layout, and rebind the dropdowns only if the mode changed.
     */
    method HandleResize(viewportWidth: int)
      requires Valid()
      modifies this`isMobile, this`navActive, this`toggleActive
      modifies this`dropdownInits, this`clickBound, this`hoverBound, this`outsideClickBound
      ensures Valid()
      ensures isMobile == (viewportWidth <= MobileBreakpoint)
      ensures !isMobile ==> !navActive && !toggleActive
      ensures isMobile ==> navActive == old(navActive) && toggleActive == old(toggleActive)
      ensures dropdownInits == old(dropdownInits) + (if isMobile != old(isMobile) then 1 else 0)
      ensures isMobile == old(isMobile) ==>
                clickBound == old(clickBound) && hoverBound == old(hoverBound) && outsideClickBound == old(outsideClickBound)
      ensures isMobile != old(isMobile) ==>
                && clickBound == isMobile
                && hoverBound == (old(hoverBound) || !isMobile)
                && outsideClickBound == (old(outsideClickBound) || isMobile)
    {
      var wasMobile := isMobile;
      isMobile := viewportWidth <= MobileBreakpoint;
      UpdateMobileMenu();
      if wasMobile != isMobile {
        InitializeDropdowns();
      }
    }

    /** `showDropdown`: marks dropdown `k` active. */
    method ShowDropdown(k: nat)
      requires k < dropdowns.Length
      modifies dropdowns
      ensures dropdowns[..] == old(dropdowns[..])[k := true]
    {
      dropdowns[k] := true;
    }

    /** `hideDropdown`: marks dropdown `k` inactive. */
    method HideDropdown(k: nat)
      requires k < dropdowns.Length
      modifies dropdowns
      ensures dropdowns[..] == old(dropdowns[..])[k := false]
    {
      dropdowns[k] := false;
    }

    /** The pointer enters dropdown `k`: shown if the hover handlers are bound. */
    method DropdownMouseEnter(k: nat)
      requires Valid() && k < dropdowns.Length
      modifies dropdowns
      ensures dropdowns[..] == if hoverBound then old(dropdowns[..])[k := true] else old(dropdowns[..])
    {
      if hoverBound {
        ShowDropdown(k);
      }
    }

    /** The pointer leaves dropdown `k`: hidden if the hover handlers are bound. */
    method DropdownMouseLeave(k: nat)
      requires Valid() && k < dropdowns.Length
      modifies dropdowns
      ensures dropdowns[..] == if hoverBound then old(dropdowns[..])[k := false] else old(dropdowns[..])
    {
      if hoverBound {
        HideDropdown(k);
      }
    }

    /**
     * A click on the toggle of dropdown `k`. In mobile mode the bound handler
     * closes every other dropdown and flips `k`; otherwise no handler of the
     * dropdowns runs on the toggle.
     */
    method DropdownToggleClick(k: nat)
      requires Valid() && k < dropdowns.Length
      modifies dropdowns
      ensures clickBound ==> dropdowns[..] == AccordionClick(old(dropdowns[..]), k)
      ensures !clickBound ==> dropdowns[..] == old(dropdowns[..])
    {
      if !clickBound {
        return;
      }
      var isActive := dropdowns[k];
      var j := 0;
      while j < dropdowns.Length
        invariant 0 <= j <= dropdowns.Length
        invariant forall m :: 0 <= m < dropdowns.Length ==>
                    dropdowns[m] == (if m < j && m != k then false else old(dropdowns[m]))
      {
        if j != k {
          dropdowns[j] := false;
        }
        j := j + 1;
      }
      if isActive {
        dropdowns[k] := false;
      } else {
        dropdowns[k] := true;
      }
    }

    /**
     * `handleOutsideClick`, once bound: every dropdown that does not contain
     * the click target (those not in `inside`) is closed.
     */
    method DropdownOutsideClick(inside: set<nat>)
      requires Valid()
      modifies dropdowns
      ensures outsideClickBound ==> dropdowns[..] == CloseOutside(old(dropdowns[..]), inside)
      ensures !outsideClickBound ==> dropdowns[..] == old(dropdowns[..])
    {
      if !outsideClickBound {
        return;
      }
      var j := 0;
      while j < dropdowns.Length
        invariant 0 <= j <= dropdowns.Length
        invariant forall m :: 0 <= m < dropdowns.Length ==>
                    dropdowns[m] == (if m < j && m !in inside then false else old(dropdowns[m]))
      {
        if j !in inside {
          dropdowns[j] := false;
        }
        j := j + 1;
      }
    }

    /**
     * `toggleDropdown`: hides an open dropdown `k`; shows a closed one after
     * hiding every other open dropdown.
     */
    method ToggleDropdown(k: nat)
      requires k < dropdowns.Length
      modifies dropdowns
      ensures dropdowns[..] == Dropdowns.ToggleDropdown(old(dropdowns[..]), k)
    {
      if dropdowns[k] {
        HideDropdown(k);
        return;
      }
      var j := 0;
      while j < dropdowns.Length
        invariant 0 <= j <= dropdowns.Length
        invariant forall m :: 0 <= m < dropdowns.Length ==>
                    dropdowns[m] == (if m < j && m != k then false else old(dropdowns[m]))
      {
        if dropdowns[j] && j != k {
          HideDropdown(j);
        }
        j := j + 1;
      }
      ShowDropdown(k);
    }
  }
}
