/**
 The testimonial carousel of `initTestimonialsCarousel` (js/main.js): a current-slide index
 over a fixed collection of slides, a parallel collection of indicators, and one repeating
 auto-advance interval that every manual navigation cancels and restarts.

 The DOM is reduced to two sequences of active flags and the timer API to `Timers.Table`.
 */
module Carousel {
  import opened Flags
  import opened Timers

  datatype Option<T> = None | Some(value: T)

  /**
   The controller's state. `current` is `currentSlide`; `|slides|` is `totalSlides`;
   `handle` is the variable `autoSlideInterval`. The index is never negative: it starts at
   0, `prevSlide` from 0 yields `totalSlides - 1`, and `goToSlide` only receives
   indicator positions.
   */
  datatype Carousel = Carousel(
    current: nat,
    slides: seq<bool>,
    indicators: seq<bool>,
    timers: Table,
    handle: nat)

  /**
   The carousel's invariant: at least one slide, no more indicators than slides (every
   indicator position is a slide position), the index in slide range, and exactly one
   live interval, the one `handle` names.
   */
  ghost predicate Valid(c: Carousel)
  {
    && 1 <= |c.slides|
    && |c.indicators| <= |c.slides|
    && c.current < |c.slides|
    && WellFormed(c.timers)
    && c.timers.live == {c.handle}
  }

  /** The flags agree with the index: slide k and indicator k are active exactly when k == current. */
  ghost predicate Shown(c: Carousel)
  {
    OneHot(c.slides, c.current) && OneHot(c.indicators, c.current)
  }

  /** `updateCarousel`: rewrites every slide flag and every indicator flag from the index. */
  function Render(c: Carousel): (r: Carousel)
    ensures Shown(r)
    ensures |r.slides| == |c.slides| && |r.indicators| == |c.indicators|
    ensures r.current == c.current && r.timers == c.timers && r.handle == c.handle
  {
    c.(slides := Mark(|c.slides|, c.current), indicators := Mark(|c.indicators|, c.current))
  }

  /** `nextSlide`: one step forward, wrapping from the last slide to the first. */
  function Next(c: Carousel): (r: Carousel)
    requires 1 <= |c.slides|
    ensures c.current + 1 < |c.slides| ==> r.current == c.current + 1
    ensures c.current + 1 == |c.slides| ==> r.current == 0
    ensures r.current < |c.slides|
    ensures Shown(r)
    ensures |r.slides| == |c.slides| && |r.indicators| == |c.indicators|
    ensures r.timers == c.timers && r.handle == c.handle
  {
    Render(c.(current := (c.current + 1) % |c.slides|))
  }

  /** `prevSlide`: one step back, wrapping from the first slide to the last. */
  function Prev(c: Carousel): (r: Carousel)
    requires 1 <= |c.slides|
    ensures c.current == 0 ==> r.current == |c.slides| - 1
    ensures 0 < c.current ==> r.current + 1 == c.current
    ensures c.current < |c.slides| ==> r.current < |c.slides|
    ensures Shown(r)
    ensures |r.slides| == |c.slides| && |r.indicators| == |c.indicators|
    ensures r.timers == c.timers && r.handle == c.handle
  {
    Render(c.(current := if c.current == 0 then |c.slides| - 1 else c.current - 1))
  }

  /** `goToSlide(index)`: jumps to `index` whatever the current slide is. */
  function GoTo(c: Carousel, index: nat): (r: Carousel)
    ensures r.current == index
    ensures r.current < |r.slides| <==> index < |c.slides|
    ensures Shown(r)
    ensures |r.slides| == |c.slides| && |r.indicators| == |c.indicators|
    ensures r.timers == c.timers && r.handle == c.handle
  {
    Render(c.(current := index))
  }

  /** Starting the auto-advance interval (`setInterval` with `nextSlide` as callback) and keeping its handle. */
  function Arm(c: Carousel): (r: Carousel)
    ensures r.timers.live == c.timers.live + {r.handle}
    ensures WellFormed(c.timers) ==> r.handle !in c.timers.live && WellFormed(r.timers)
    ensures r.current == c.current && r.slides == c.slides && r.indicators == c.indicators
  {
    var (t, h) := Start(c.timers);
    c.(timers := t, handle := h)
  }

  /** Stopping the interval whose handle the carousel holds (`clearInterval` on that handle). */
  function Disarm(c: Carousel): (r: Carousel)
    ensures r.timers.live == c.timers.live - {c.handle}
    ensures WellFormed(c.timers) ==> WellFormed(r.timers)
    ensures r.current == c.current && r.slides == c.slides && r.indicators == c.indicators
    ensures r.handle == c.handle
  {
    c.(timers := Clear(c.timers, c.handle))
  }

  /** Click on the previous button: clear the interval, step back, start a fresh interval. */
  function ClickPrev(c: Carousel): (r: Carousel)
    requires 1 <= |c.slides|
    ensures r.current == Prev(c).current
    ensures Shown(r)
    ensures r.slides == Mark(|c.slides|, r.current) && r.indicators == Mark(|c.indicators|, r.current)
    ensures r.timers.live == c.timers.live - {c.handle} + {r.handle}
    ensures WellFormed(c.timers) ==> r.handle !in c.timers.live
    ensures Valid(c) ==> Valid(r)
  {
    Arm(Prev(Disarm(c)))
  }

  /** Click on the next button: clear the interval, step forward, start a fresh interval. */
  function ClickNext(c: Carousel): (r: Carousel)
    requires 1 <= |c.slides|
    ensures r.current == Next(c).current
    ensures Shown(r)
    ensures r.slides == Mark(|c.slides|, r.current) && r.indicators == Mark(|c.indicators|, r.current)
    ensures r.timers.live == c.timers.live - {c.handle} + {r.handle}
    ensures WellFormed(c.timers) ==> r.handle !in c.timers.live
    ensures Valid(c) ==> Valid(r)
  {
    Arm(Next(Disarm(c)))
  }

  /**
   Click on indicator `index`: clear the interval, jump to the indicator's own position,
   start a fresh interval. Only existing indicators have a listener, hence the requires.
   */
  function ClickIndicator(c: Carousel, index: nat): (r: Carousel)
    requires index < |c.indicators|
    ensures r.current == index
    ensures Shown(r)
    ensures r.slides == Mark(|c.slides|, r.current) && r.indicators == Mark(|c.indicators|, r.current)
    ensures r.timers.live == c.timers.live - {c.handle} + {r.handle}
    ensures WellFormed(c.timers) ==> r.handle !in c.timers.live
    ensures Valid(c) ==> Valid(r)
  {
    Arm(GoTo(Disarm(c), index))
  }

  /**
   Initialisation. Without the track or either button nothing is set up: no state and no
   interval. Otherwise the index starts at 0, the flags are left as the page has them
   (there is no initial render), and exactly one interval is started.
   */
  function Init(hasTrack: bool, hasPrev: bool, hasNext: bool,
                slides: seq<bool>, indicators: seq<bool>, timers: Table): (r: Option<Carousel>)
    ensures r.None? <==> !(hasTrack && hasPrev && hasNext)
    ensures r.Some? ==> r.value.current == 0
    ensures r.Some? ==> r.value.slides == slides && r.value.indicators == indicators
    ensures r.Some? ==> r.value.timers.live == timers.live + {r.value.handle}
    ensures r.Some? && WellFormed(timers) ==> r.value.handle !in timers.live
    ensures (r.Some? && WellFormed(timers) && timers.live == {}
             && 1 <= |slides| && |indicators| <= |slides|) ==> Valid(r.value)
  {
    if !hasTrack || !hasPrev || !hasNext then None
    else Some(Arm(Carousel(0, slides, indicators, timers, 0)))
  }

  /** What can happen to a running carousel: a user click or a firing of the interval. */
  datatype Event = PrevClick | NextClick | IndicatorClick(index: nat) | Tick

  /** Only the page's indicators can be clicked. */
  predicate Admissible(indicatorCount: nat, e: Event)
  {
    e.IndicatorClick? ==> e.index < indicatorCount
  }

  /** One event; a firing of the live interval calls `nextSlide` and leaves the timers alone. */
  function Step(c: Carousel, e: Event): (r: Carousel)
    requires Valid(c) && Admissible(|c.indicators|, e)
    ensures Valid(r) && Shown(r)
    ensures |r.slides| == |c.slides| && |r.indicators| == |c.indicators|
    ensures e.Tick? ==> r.timers == c.timers && r.handle == c.handle
    ensures !e.Tick? ==> r.handle != c.handle
  {
    match e
    case PrevClick => ClickPrev(c)
    case NextClick => ClickNext(c)
    case IndicatorClick(index) => ClickIndicator(c, index)
    case Tick => Next(c)
  }

  /**
   A run of events from a valid state: the invariant holds after every prefix, so the index
   never leaves slide range and exactly one interval is live throughout.
   */
  function Run(c: Carousel, events: seq<Event>): (r: Carousel)
    requires Valid(c)
    requires forall i :: 0 <= i < |events| ==> Admissible(|c.indicators|, events[i])
    ensures Valid(r)
    ensures |r.slides| == |c.slides| && |r.indicators| == |c.indicators|
    ensures |events| > 0 ==> Shown(r)
    decreases |events|
  {
    if |events| == 0 then c
    else Run(Step(c, events[0]), events[1..])
  }
}
