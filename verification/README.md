# Testimonial carousel and mobile menu of the innov3dprint site script

A Dafny model of the one stateful component of the site's `js/main.js`: the testimonial
carousel set up by `initTestimonialsCarousel`, together with the small mobile-menu toggle
of `initNavigation`.

The carousel keeps a current-slide index over a fixed collection of slides and a parallel
collection of indicators. `nextSlide` wraps forward, `prevSlide` wraps backward and
`goToSlide` jumps to an indicator's position; `updateCarousel` marks slide `k` and
indicator `k` active exactly when `k` is the index. One repeating interval calls
`nextSlide`; every manual navigation (previous button, next button, indicator) clears that
interval, moves, and starts a fresh one.

Modules:

- `Timers` (timers.dfy): the browser's interval table, reduced to the set of live handles
  and a never-issued handle; `Start` is `setInterval`, `Clear` is `clearInterval`.
- `Flags` (flags.dfy): active-flag sequences. `Mark` is what a render writes, `OneHot` is
  its shape, `CountTrue` counts active elements, `Toggle` is the `forEach` loop itself.
- `Carousel` (carousel.dfy): the immutable state record (index, slide flags, indicator
  flags, timer table, held handle), the transitions, the three click handlers,
  initialisation, and runs of events (clicks and interval firings).
- `CarouselProps` (carousel_props.dfy): round trips, cyclic closure, counts of active
  elements, timer restarts and the four-slide walk-throughs.
- `Menu` (menu.dfy): the two `active` flags of the hamburger and navigation menu and the
  three click listeners, dispatched in bubbling order.

The DOM is replaced by sequences of booleans (`true` = carries the `active` class), and
element lookups by booleans saying whether the element exists. The 6000 ms period is not
modelled: a firing of the interval is one `Tick` event, which calls `nextSlide`.

The index is a `nat`. Every value the code can produce is non-negative (it starts at 0,
`prevSlide` from 0 gives `totalSlides - 1`, `goToSlide` receives `forEach` positions), so
JavaScript's truncating `%` and Dafny's Euclidean `%` agree here.

The carousel invariant `Valid` asks for at least one slide, no more indicators than slides,
the index in slide range, and exactly one live interval, the one the carousel holds. The
source never checks the indicator count against the slide count; it relies on the page
having one indicator per slide. `CarouselProps.GoToPastLastSlide` shows what happens
otherwise: no slide is active.

## Model

| member | source | states |
|---|---|---|
| Carousel.Render | js/main.js:174-184 | slide k and indicator k are active exactly when k is the index; sizes, index and timers are unchanged |
| Carousel.Next | js/main.js:164-167 | the index moves one forward, wrapping from the last slide to the first, stays in range, and the flags follow it |
| Carousel.Prev | js/main.js:159-162 | the index moves one back, wrapping from the first slide to the last, stays in range if it was, and the flags follow it |
| Carousel.GoTo | js/main.js:169-172 | the index becomes exactly the requested position whatever it was, and is in slide range exactly when that position is |
| Carousel.ClickPrev | js/main.js:138-142 | the held interval is cleared, the carousel steps back, the same page's slides and indicators are re-rendered for the new index, and one fresh interval becomes the held one; the invariant is kept |
| Carousel.ClickNext | js/main.js:144-148 | the held interval is cleared, the carousel steps forward, the same page's slides and indicators are re-rendered for the new index, and one fresh interval becomes the held one; the invariant is kept |
| Carousel.ClickIndicator | js/main.js:150-157 | clicking indicator k clears the interval, re-renders the same page's slides and indicators for index k, and starts one fresh interval; the invariant is kept |
| Carousel.Init | js/main.js:122-135 | nothing is set up when the track or a button is missing; otherwise the index is 0, the flags are left as the page has them, and exactly one new interval is live |
| Carousel.Step | js/main.js:134-157 | any click or interval firing keeps the invariant and leaves the flags matching the index; a firing leaves the timers alone, a click replaces the held interval |
| Carousel.Run | js/main.js:134-167 | along any run of clicks and firings the index stays in range and exactly one interval stays live |
| Carousel.Arm | js/main.js:135 | starting the auto-advance interval adds one handle that was not live, makes it the held handle, and leaves index and flags alone |
| Carousel.Disarm | js/main.js:139 | clearing the held interval removes exactly that handle from the live set and leaves index, flags and held handle alone |
| Timers.Start | js/main.js:135 | starting an interval adds exactly one handle that was not live |
| Timers.Clear | js/main.js:139 | clearing removes the given handle and keeps every other live one; an unknown handle changes nothing |
| Timers.RestartKeepsOne | js/main.js:139-141 | clearing the only live interval and starting a new one leaves exactly one live interval, under a new handle |
| Flags.Toggle | js/main.js:176-178 | the element-by-element toggle loop leaves element k active exactly when k is the index |
| Flags.CountOneHot | js/main.js:176-183 | a rendered collection has one active element when the index is one of its positions and none otherwise |
| CarouselProps.RenderFixesShown | js/main.js:174-184 | rendering a state whose flags already match its index changes nothing |
| CarouselProps.RenderedCounts | js/main.js:174-184 | after a render with the index in slide range exactly one slide is active, at most one indicator is, and an empty indicator list stays empty |
| CarouselProps.StepShowsOneSlide | js/main.js:138-183 | after any event exactly one slide is active, the one at the index, and at most one indicator |
| CarouselProps.PrevUndoesNext | js/main.js:159-167 | previous after next gives back the same index and the rendered flags |
| CarouselProps.NextUndoesPrev | js/main.js:159-167 | next after previous gives back the same index and the rendered flags |
| CarouselProps.StepsRoundTrip | js/main.js:159-167 | on a rendered state, next-then-previous and previous-then-next give back the very same state |
| CarouselProps.ClicksRoundTrip | js/main.js:138-148 | clicking next then previous returns to the same slide and flags, with one live interval and the original one gone |
| CarouselProps.AdvanceCurrent | js/main.js:164-167 | n forward steps from an in-range index land on (index + n) mod the slide count |
| CarouselProps.CycleCloses | js/main.js:164-167 | as many forward steps as there are slides return the carousel to its rendered starting state |
| CarouselProps.TicksAdvance | js/main.js:135 | n firings of the interval act exactly as n calls of nextSlide |
| CarouselProps.ThreeTicksAdvanceThree | js/main.js:135 | three firings (18 seconds at one per 6 seconds) are three forward steps |
| CarouselProps.GoToForgetsHistory | js/main.js:169-172 | two carousels of the same page agree entirely on index and flags after the same jump |
| CarouselProps.GoToPastLastSlide | js/main.js:151-172 | a jump to a position past the last slide leaves no slide active |
| CarouselProps.ManualNavigationRestarts | js/main.js:138-157 | every manual navigation cancels the held interval and leaves exactly one, new, live interval |
| CarouselProps.InitStartsOneInterval | js/main.js:128-135 | initialisation with all elements present starts exactly one interval |
| CarouselProps.FourSlidesNextWraps | js/main.js:144-148 | with four slides from the first, three next clicks show the fourth and a fourth wraps to the first |
| CarouselProps.FourSlidesPrevWraps | js/main.js:138-142 | with four slides from the first, a previous click shows the fourth |
| CarouselProps.IndicatorJump | js/main.js:150-157 | from the first slide, clicking indicator 2 shows slide 2, marks indicator 2 and unmarks indicator 0 |
| Menu.Click | js/main.js:19-39 | a hamburger click flips both flags, a link or outside click clears both, a click elsewhere in the menu or with no listeners bound changes nothing, and equal flags stay equal |
| Menu.ClicksKeepSynced | js/main.js:20-39 | flags that start equal stay equal after any sequence of clicks |
| Menu.ClicksFollowOpenAfter | js/main.js:20-39 | from equal flags, the two flags follow a single open/closed bit that hamburger clicks flip and link or outside clicks clear |
| Menu.UnboundIgnoresClicks | js/main.js:19 | without both elements no click changes the flags |

## Left out

- Zero slides: `nextSlide` computes `% 0` (NaN in JavaScript), so `Next`, `Prev`, `ClickPrev` and `ClickNext` require at least one slide; `ClickIndicator` needs only an existing indicator, and the invariant `Valid` (at least one slide) is what keeps its result in range.
- Carousel.Next: for an index at or past the slide count (reachable only with more indicators than slides) the contract states only that the result is back in range, not its exact value.
- Timing: the 6000 ms period, elapsed time and the interleaving of firings with clicks beyond their order in a run of events.
- Browser wiring: element lookups, `addEventListener` and `classList` are reduced to booleans and flag sequences.
- The navbar `scrolled` class (js/main.js:43-51): driven by the browser's floating-point scroll position.
- Smooth scrolling of anchor links (js/main.js:57-68): a pure browser call.
- Hero parallax (js/main.js:71-78): a floating-point multiply feeding a CSS transform.
- Fade-in animations (js/main.js:82-101): depend on the browser's IntersectionObserver with fractional thresholds.
- Product "view more" (js/main.js:104-119) and the mobile dropdowns (js/main.js:188-219): direct style and class writes driven by browser state and window width.
- Menu: the hamburger and the navigation menu are taken as disjoint page regions; a hamburger nested inside the menu is not modelled.
