# Site presentation state (Dafny model of `script.js`)

This project models the presentation-state controller of a small marketing
website's client script. `SiteManager` keeps track of the following:

- an image carousel: the current slide index, one `active` mark carried by a
  slide and by its indicator, and a `slideChange` notification on every move;
- an auto-play interval handle;
- a swipe gesture decision;
- the hamburger menu of the mobile layout;
- an accordion of dropdown menus, bound to hover on desktop and to clicks on
  mobile;
- the switch between the two layouts on resize;
- keyboard shortcuts.

`LazyLoader` copies each image's deferred `data-src` into `src` once.

The DOM is reduced to the class flags the script toggles. The nodes of a
page are the flags `slides`, `indicators` and `dropdowns`, each an array of
booleans, plus `navActive` and `toggleActive`. Dispatching `slideChange` is
appending a `SlideChange(i)` entry to a log. `setInterval` and
`clearInterval` are the handle `autoPlayInterval: Option<nat>` together with
the set of intervals the host has armed. Attached listeners are three flags
that say which dropdown handlers are bound.

Modules:

- `Wrappers`: the `Option` type, which stands for `null`.
- `Slides`: the carousel as a value (`Carousel`), together with the index
  arithmetic, `goToSlide`/`nextSlide`/`prevSlide` as functions, the swipe
  decision and the wrap-around laws.
- `Dropdowns`: the dropdown flags as a `seq<bool>`, together with the mobile
  accordion click, `toggleDropdown`, the outside-click rule and the
  at-most-one-open invariant.
- `Site`: the class `SiteManager`. Its methods update the fields and arrays
  in place, and each one's `ensures` ties the new state to the functions of
  `Slides` and `Dropdowns`. `Valid()` is the object invariant:
  - slides and indicators have the same count;
  - the index is in range;
  - at most one interval is armed, and only on a page with slides;
  - the nav and the toggle carry the same flag;
  - the click handler is bound exactly in the mobile layout.
- `Lazy`: `Image` as a value, `loadImage` as a function, and the class
  `LazyLoader` with its loop and its intersection callback.

Inputs from the browser become parameters:

- the viewport width (`HandleResize`, the constructor);
- the key name (`HandleKeyboard`);
- the touch coordinates (`HandleSwipe`);
- which elements contain a click target (`MenuOutsideClick`,
  `DropdownOutsideClick`);
- whether `IntersectionObserver` exists (the `LazyLoader` constructor).

## Where the code and its design description differ (the model follows the code)

- An out-of-range `goToSlide` index is ignored. It is not clamped or wrapped.
- Manual navigation does not restart the auto-play interval.
- A resize closes the mobile menu whenever the new layout is not mobile, even
  when the layout did not change. It never closes the dropdowns.
- Closing the menu does not close the dropdowns.
- A switch of layout removes only the toggles' click handlers, because
  `initializeDropdowns` replaces each toggle by a clone. The hover handlers
  live on the dropdown element, so they stay bound. The outside-click handler
  is replaced only in the mobile branch, so it also stays bound after a switch
  to desktop. The model keeps these handlers bound (`hoverBound`,
  `outsideClickBound`). Because
  hover handlers stay bound, a mouse-enter in the mobile layout can open a
  second dropdown. For that reason "at most one open" is proved for the
  click handlers and not made an object invariant.
- `toggleDropdown` on an open dropdown hides only that one. Its guarantee of
  at most one open dropdown therefore holds only when that was already true
  (`Dropdowns.ToggleDropdown`, `Dropdowns.ToggleMatchesAccordion`).

## Model

| member | source | states |
|---|---|---|
| `Slides.NextIndex` | script.js:131-134 | the next index stays below the slide count; it is one more, except that the last slide wraps to 0 |
| `Slides.PrevIndex` | script.js:136-139 | with slides, the previous index is in range and `NextIndex` maps it back to the current one; without slides it is -1 |
| `Slides.PrevUndoesNext` | script.js:131-139 | `prevSlide`'s index undoes `nextSlide`'s |
| `Slides.Moved` | script.js:144-153 | moving the mark from the only active flag leaves exactly the target flag active |
| `Slides.GoTo` | script.js:141-157 | `goToSlide` keeps the index in range and the counts equal; if exactly the current slide and indicator were active, exactly the new ones are active afterwards |
| `Slides.GoToOutOfRangeIsNoOp` | script.js:142 | an index below 0 or at or above the slide count changes nothing: index, flags and event log |
| `Slides.GoToMovesTheMark` | script.js:144-156 | in range: the index becomes the target; the target slide and indicator are set; the old ones are cleared; no other flag changes; exactly one `SlideChange` carrying the target is logged |
| `Slides.Next` | script.js:131-134 | `nextSlide` sets the index to (current + 1) mod n and logs that index |
| `Slides.Prev` | script.js:136-139 | `prevSlide` sets the index to (current - 1) mod n and logs it; without slides it changes nothing |
| `Slides.NextTimesAdvances` | script.js:131-134 | k calls of `nextSlide` reach (current + k) mod n, log k events and keep exactly one slide/indicator pair active |
| `Slides.NextTimesLog` | script.js:131-156 | k calls of `nextSlide` keep the old log and append k entries, the i-th carrying (current + i + 1) mod n |
| `Slides.NextFullCycle` | script.js:131-134 | n calls of `nextSlide` return to the starting index |
| `Slides.PrevTimesRetreats` | script.js:136-139 | k calls of `prevSlide` reach (current - k) mod n, log k events and keep exactly one pair active |
| `Slides.PrevTimesLog` | script.js:136-156 | k calls of `prevSlide` keep the old log and append k entries, the i-th carrying (current - i - 1) mod n |
| `Slides.PrevFullCycle` | script.js:136-139 | n calls of `prevSlide` return to the starting index |
| `Slides.ThreeSlidesScenario` | script.js:131-157 | with three slides starting at 0, three `nextSlide` calls log 1, 2, 0 and end with only slide 0 active |
| `Slides.SwipeDecision` | script.js:391-401 | a swipe goes forward iff startX - endX > 50, goes back iff endX - startX > 50, and does nothing iff the difference is within [-50, 50] |
| `Slides.ApplySwipe` | script.js:391-401 | a swipe keeps the carousel well formed |
| `Slides.SwipeSteps` | script.js:391-401 | a drag of at most 50 changes nothing; with slides, a longer one moves the index by exactly one, forward or back, and logs one event; without slides a backward swipe changes nothing |
| `Dropdowns.AccordionClick` | script.js:258-274 | after a mobile toggle click, the clicked dropdown holds the negation of its prior state, every other one is closed, and at most one is open |
| `Dropdowns.ToggleDropdown` | script.js:321-333 | `toggleDropdown` flips the target; opening it closes all others; closing it leaves the others as they were; at most one open is preserved |
| `Dropdowns.ToggleMatchesAccordion` | script.js:321-333 | when at most one dropdown is open, `toggleDropdown` gives the same flags as the mobile click handler |
| `Dropdowns.CloseOutside` | script.js:287-293 | an outside click closes exactly the dropdowns that do not contain the target and leaves the others unchanged |
| `Dropdowns.CloseOutsideIdempotent` | script.js:287-293 | handling the same outside click twice equals handling it once |
| `Dropdowns.OpenThenOpenOther` | script.js:258-274 | clicking dropdown A and then a different dropdown B leaves exactly B open |
| `Dropdowns.ClicksKeepAtMostOne` | script.js:258-274 | after any non-empty series of mobile clicks, at most one dropdown is open, and only the last one clicked can be |
| `Site.SiteManager.constructor` | script.js:15-31 | initial state: index 0, empty event log, menu closed, auto-play armed iff there are slides; the click and outside-click handlers are bound iff the layout is mobile and the hover handlers iff it is not; the invariant holds |
| `Site.SiteManager.GoToSlide` | script.js:141-157 | the slide and indicator arrays, the index and the event log become `GoTo` of the old carousel; nothing else changes |
| `Site.SiteManager.NextSlide` | script.js:131-134 | the carousel becomes `Next` of the old one (requires at least one slide) |
| `Site.SiteManager.PrevSlide` | script.js:136-139 | the carousel becomes `Prev` of the old one |
| `Site.SiteManager.StartAutoPlay` | script.js:116-122 | if an interval is armed, nothing changes; otherwise exactly one new interval is armed; afterwards exactly one interval is live |
| `Site.SiteManager.StopAutoPlay` | script.js:124-129 | the handle is null and no interval is live afterwards, so a second call changes nothing |
| `Site.SiteManager.AutoPlayTick` | script.js:119-121 | a firing of the interval performs `nextSlide` while the handle is armed |
| `Site.SiteManager.HandleSwipe` | script.js:391-402 | the carousel becomes `ApplySwipe` of the old one for the given coordinates |
| `Site.SiteManager.ToggleMobileMenu` | script.js:178-184 | the nav and toggle flags are both negated, and they stay equal |
| `Site.SiteManager.CloseMobileMenu` | script.js:199-204 | the nav and the toggle are inactive afterwards |
| `Site.SiteManager.UpdateMobileMenu` | script.js:214-218 | outside the mobile layout the menu is closed; in it, the menu is unchanged |
| `Site.SiteManager.MenuOutsideClick` | script.js:171-175 | a click outside both the nav and the toggle closes the menu; any other click leaves it unchanged |
| `Site.SiteManager.HandleKeyboard` | script.js:70-82 | ArrowLeft does `prevSlide`, ArrowRight `nextSlide`, Escape closes the menu, and other keys change nothing |
| `Site.SiteManager.InitializeDropdowns` | script.js:221-297 | the click handler is bound iff the layout is mobile; hover handlers are added in desktop mode and the outside-click handler in mobile mode, and neither is removed; the re-initialisation counter grows by one |
| `Site.SiteManager.HandleResize` | script.js:49-59 | the layout mode follows the width; a non-mobile width closes the menu; dropdowns are re-initialised exactly when the mode flipped, and then the click handler follows the new mode while hover and outside-click handlers are only ever added; otherwise the bindings are unchanged |
| `Site.SiteManager.ShowDropdown` | script.js:299-300 | only dropdown k becomes active |
| `Site.SiteManager.HideDropdown` | script.js:310-311 | only dropdown k becomes inactive |
| `Site.SiteManager.DropdownMouseEnter` | script.js:242-244 | with hover handlers bound, entering shows dropdown k; otherwise nothing changes |
| `Site.SiteManager.DropdownMouseLeave` | script.js:246-248 | with hover handlers bound, leaving hides dropdown k; otherwise nothing changes |
| `Site.SiteManager.DropdownToggleClick` | script.js:251-275 | with the mobile click handler bound, the flags become `AccordionClick` of the old ones; otherwise they are unchanged |
| `Site.SiteManager.DropdownOutsideClick` | script.js:287-293 | once the outside-click handler is bound, the flags become `CloseOutside` of the old ones for the target; otherwise they are unchanged |
| `Site.SiteManager.ToggleDropdown` | script.js:321-333 | the flags become `Dropdowns.ToggleDropdown` of the old ones |
| `Lazy.LoadImage` | script.js:471-478 | an image with a non-empty `data-src` gets it as `src`, loses the attribute and is marked loaded; any other image is unchanged; afterwards nothing is pending |
| `Lazy.LoadImageOnce` | script.js:471-478 | loading an image twice equals loading it once |
| `Lazy.LoadAll` | script.js:480-482 | every image is loaded individually |
| `Lazy.LoadAllOnce` | script.js:480-482 | after loading all images none is pending, and a second pass changes nothing |
| `Lazy.LazyLoader.constructor` | script.js:443-454 | with an observer, every image is watched and none is loaded; without one, all are loaded at once and none is watched |
| `Lazy.LazyLoader.LoadImageAt` | script.js:471-478 | image i becomes `LoadImage` of itself, and the other images are unchanged |
| `Lazy.LazyLoader.LoadAllImages` | script.js:480-482 | the image array becomes `LoadAll` of the old one |
| `Lazy.LazyLoader.OnIntersect` | script.js:457-464 | a watched image is loaded and unwatched, so a later intersection does nothing; an unwatched one, or any other image, is unchanged |

## Left out

- DOM querying and listener wiring (`querySelector*`, `addEventListener`, the `cloneNode`/`replaceChild` rebinding, `CustomEvent` dispatch). The outcome of the wiring is modelled as the flags `clickBound`, `hoverBound` and `outsideClickBound`. Duplicate hover listeners collect after repeated switches to desktop. They are not counted, because their effect is idempotent.
- Bubbling of one click through several listeners is not modelled. Each listener is its own method. The toggle handlers' `stopPropagation` and `preventDefault` are not modelled either.
- Inline styles and animations: the hamburger transforms, the dropdown inline styles, `initializeAnimations`, and the reveal driven by `IntersectionObserver`. They are presentation only.
- Timer semantics: when intervals fire (one firing is `AutoPlayTick`), `debounce`, `throttle`, and the 5000 ms period. The pause on hover is `StopAutoPlay`/`StartAutoPlay` called by the mouse handlers and is not modelled separately.
- `handleScroll`, `PerformanceMonitor`, `ErrorHandler` and service-worker registration. They are logging or browser plumbing.
- Pages without `.main-nav` or `.mobile-menu-toggle`, where the source throws in `closeMobileMenu`: the model always has a menu. The menu is assumed to start closed.
- Site.SiteManager.NextSlide: requires at least one slide. With none, the source computes `% 0` and then indexes an empty list. For the same reason, `HandleKeyboard` requires a slide for ArrowRight and `HandleSwipe` requires one for a forward swipe.
- Site.SiteManager.constructor: requires as many indicators as slides, because `goToSlide` indexes the indicators with the slide index.
- Site.SiteManager.HandleSwipe: takes the start and end coordinates as parameters. The source reads them from locals of `setupTouchEvents` that are not in its scope. The coordinates are integers here, not floating-point `clientX` values.
- Dropdowns without a `.dropdown-toggle` or `.dropdown-menu`, which the source skips when binding, are not distinguished. Every dropdown is assumed to have both.
