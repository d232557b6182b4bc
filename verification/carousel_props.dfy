/**
 Properties of the carousel that relate several operations: rendering is the only source of
 the active flags, previous and next undo each other, `totalSlides` forward steps close the
 cycle, manual navigation keeps exactly one interval live, and the walk-throughs of the
 site's behaviour (four slides, wrap-around, indicator jump, auto-advance).
 */
module CarouselProps {
  import opened Flags
  import opened Timers
  import opened Carousel

  /** A state whose flags already agree with its index is left unchanged by a render. */
  lemma RenderFixesShown(c: Carousel)
    requires Shown(c)
    ensures Render(c) == c
  {
    OneHotUnique(c.slides, Render(c).slides, c.current);
    OneHotUnique(c.indicators, Render(c).indicators, c.current);
  }

  /**
   After a render with the index in slide range exactly one slide is active; at most one
   indicator is, and one is exactly when the index has an indicator. An empty indicator list
   stays empty.
   */
  lemma RenderedCounts(c: Carousel)
    requires c.current < |c.slides|
    ensures CountTrue(Render(c).slides) == 1
    ensures CountTrue(Render(c).indicators) == (if c.current < |c.indicators| then 1 else 0)
    ensures CountTrue(Render(c).indicators) <= 1
    ensures |c.indicators| == 0 ==> Render(c).indicators == c.indicators
  {
    CountOneHot(Render(c).slides, c.current);
    CountOneHot(Render(c).indicators, c.current);
  }

  /**
   Every event leaves exactly one slide active, at the index, and at most one indicator.
   */
  lemma StepShowsOneSlide(c: Carousel, e: Event)
    requires Valid(c) && Admissible(|c.indicators|, e)
    ensures CountTrue(Step(c, e).slides) == 1
    ensures Step(c, e).slides[Step(c, e).current]
    ensures CountTrue(Step(c, e).indicators) <= 1
  {
    var r := Step(c, e);
    CountOneHot(r.slides, r.current);
    CountOneHot(r.indicators, r.current);
  }

  /** `prevSlide` undoes `nextSlide`: the index comes back and the flags are those of a render. */
  lemma PrevUndoesNext(c: Carousel)
    requires 1 <= |c.slides| && c.current < |c.slides|
    ensures Prev(Next(c)) == Render(c)
  {
  }

  /** `nextSlide` undoes `prevSlide`. */
  lemma NextUndoesPrev(c: Carousel)
    requires 1 <= |c.slides| && c.current < |c.slides|
    ensures Next(Prev(c)) == Render(c)
  {
  }

  /** A shown state is restored exactly by next-then-previous and by previous-then-next. */
  lemma StepsRoundTrip(c: Carousel)
    requires 1 <= |c.slides| && c.current < |c.slides| && Shown(c)
    ensures Prev(Next(c)) == c
    ensures Next(Prev(c)) == c
  {
    RenderFixesShown(c);
    PrevUndoesNext(c);
    NextUndoesPrev(c);
  }

  /**
   Clicking next and then previous returns to the same slide and the same flags, and still
   leaves exactly one live interval; neither handle of the earlier intervals survives.
   */
  lemma ClicksRoundTrip(c: Carousel)
    requires Valid(c)
    ensures ClickPrev(ClickNext(c)).current == c.current
    ensures ClickPrev(ClickNext(c)).slides == Render(c).slides
    ensures ClickPrev(ClickNext(c)).indicators == Render(c).indicators
    ensures Valid(ClickPrev(ClickNext(c)))
    ensures c.handle !in ClickPrev(ClickNext(c)).timers.live
  {
    var r := ClickPrev(ClickNext(c));
    OneHotUnique(r.slides, Render(c).slides, c.current);
    OneHotUnique(r.indicators, Render(c).indicators, c.current);
  }

  /** `nextSlide` called `n` times in a row. */
  function Advance(c: Carousel, n: nat): (r: Carousel)
    requires 1 <= |c.slides|
    decreases n
  {
    if n == 0 then c else Advance(Next(c), n - 1)
  }

  /** Euclidean remainders are unique: any decomposition `a == q * n + r` with `0 <= r < n` gives `r`. */
  lemma ModUnique(a: int, n: int, q: int, r: int)
    requires 1 <= n && 0 <= r < n && a == q * n + r
    ensures a % n == r
  {
    var q', r' := a / n, a % n;
    assert (q - q') * n == r' - r;
    if q' < q {
      assert (q - q') * n >= n by { MulAtLeast(q - q', n); }
    } else if q < q' {
      assert (q' - q) * n >= n by { MulAtLeast(q' - q, n); }
    }
  }

  lemma MulAtLeast(k: int, n: int)
    requires 1 <= k && 1 <= n
    ensures k * n >= n
  {
  }

  /** Adding one full turn does not change the remainder. */
  lemma ModAddPeriod(x: nat, n: nat)
    requires 1 <= n
    ensures (x + n) % n == x % n
  {
    ModUnique(x + n, n, x / n + 1, x % n);
  }

  /** One full turn from an in-range position comes back to it. */
  lemma ModFullTurn(x: nat, n: nat)
    requires x < n
    ensures (x + n) % n == x
  {
    ModUnique(x + n, n, 1, x);
  }

  /** `n` forward steps from an in-range index land on `(index + n) mod totalSlides`. */
  lemma {:induction false} AdvanceCurrent(c: Carousel, n: nat)
    requires 1 <= |c.slides| && c.current < |c.slides|
    ensures Advance(c, n).current == (c.current + n) % |c.slides|
    ensures |Advance(c, n).slides| == |c.slides|
    ensures |Advance(c, n).indicators| == |c.indicators|
    ensures Advance(c, n).timers == c.timers && Advance(c, n).handle == c.handle
    ensures 0 < n ==> Shown(Advance(c, n))
    decreases n
  {
    if n > 0 {
      var d := Next(c);
      AdvanceCurrent(d, n - 1);
      if c.current + 1 == |c.slides| {
        ModAddPeriod(n - 1, |c.slides|);
        assert c.current + n == (n - 1) + |c.slides|;
      }
    }
  }

  /**
   Cyclic closure: on a carousel of `n` slides, `n` forward steps bring the index back to
   where it was, and the whole state back to its render (same flags, interval and handle).
   */
  lemma CycleCloses(c: Carousel, n: nat)
    requires 1 <= n == |c.slides| && c.current < n
    ensures Advance(c, n).current == c.current
    ensures Advance(c, n) == Render(c)
  {
    var r := Advance(c, n);
    AdvanceCurrent(c, n);
    ModFullTurn(c.current, n);
    OneHotUnique(r.slides, Render(c).slides, c.current);
    OneHotUnique(r.indicators, Render(c).indicators, c.current);
  }

  /** `n` firings of the interval and nothing else. */
  function Ticks(n: nat): (r: seq<Event>)
    ensures |r| == n
    ensures forall i :: 0 <= i < n ==> r[i] == Tick
  {
    seq(n, _ => Tick)
  }

  /** Left alone, the carousel moves exactly as `n` calls of `nextSlide`. */
  lemma {:induction false} TicksAdvance(c: Carousel, n: nat)
    requires Valid(c)
    ensures Run(c, Ticks(n)) == Advance(c, n)
    ensures Run(c, Ticks(n)).current == (c.current + n) % |c.slides|
    decreases n
  {
    if n > 0 {
      assert Ticks(n)[1..] == Ticks(n - 1);
      TicksAdvance(Next(c), n - 1);
    }
    AdvanceCurrent(c, n);
  }

  /** `goToSlide(k)` forgets where the carousel was: two states of the same page agree after it. */
  lemma GoToForgetsHistory(c: Carousel, d: Carousel, k: nat)
    requires |c.slides| == |d.slides| && |c.indicators| == |d.indicators|
    ensures GoTo(c, k).current == GoTo(d, k).current == k
    ensures GoTo(c, k).slides == GoTo(d, k).slides
    ensures GoTo(c, k).indicators == GoTo(d, k).indicators
  {
    OneHotUnique(GoTo(c, k).slides, GoTo(d, k).slides, k);
    OneHotUnique(GoTo(c, k).indicators, GoTo(d, k).indicators, k);
  }

  /**
   The index stays in slide range only because the page has no more indicators than
   slides: jumping to a position past the last slide leaves no slide active at all.
   */
  lemma GoToPastLastSlide(c: Carousel, k: nat)
    requires |c.slides| <= k
    ensures CountTrue(GoTo(c, k).slides) == 0
  {
    CountOneHot(GoTo(c, k).slides, k);
  }

  /**
   A manual navigation cancels the one live interval and schedules exactly one new one:
   afterwards the only live handle is the new one and the old one is gone.
   */
  lemma ManualNavigationRestarts(c: Carousel, e: Event)
    requires Valid(c) && Admissible(|c.indicators|, e) && !e.Tick?
    ensures Step(c, e).timers.live == {Step(c, e).handle}
    ensures c.handle !in Step(c, e).timers.live
    ensures |Step(c, e).timers.live| == 1
  {
  }

  /** Initialisation of a page with slides starts exactly one interval. */
  lemma InitStartsOneInterval(slides: seq<bool>, indicators: seq<bool>, timers: Table)
    requires WellFormed(timers) && timers.live == {}
    ensures Init(true, true, true, slides, indicators, timers).Some?
    ensures |Init(true, true, true, slides, indicators, timers).value.timers.live| == 1
  {
  }

  /** Four slides from the first: three nexts show the fourth, a fourth next wraps to the first. */
  lemma FourSlidesNextWraps(c: Carousel)
    requires Valid(c) && |c.slides| == 4 && c.current == 0
    ensures Run(c, [NextClick, NextClick, NextClick]).current == 3
    ensures Run(c, [NextClick, NextClick, NextClick, NextClick]).current == 0
  {
    assert [NextClick, NextClick, NextClick][1..] == [NextClick, NextClick];
    assert [NextClick, NextClick][1..] == [NextClick];
    assert [NextClick, NextClick, NextClick, NextClick][1..] == [NextClick, NextClick, NextClick];
  }

  /** Four slides from the first: previous wraps to the fourth. */
  lemma FourSlidesPrevWraps(c: Carousel)
    requires Valid(c) && |c.slides| == 4 && c.current == 0
    ensures Run(c, [PrevClick]).current == 3
  {
  }

  /** From the first slide, clicking indicator 2 activates indicator 2 and deactivates indicator 0. */
  lemma IndicatorJump(c: Carousel)
    requires Valid(c) && |c.indicators| == 4 && c.current == 0
    ensures Run(c, [IndicatorClick(2)]).current == 2
    ensures Run(c, [IndicatorClick(2)]).indicators[2]
    ensures !Run(c, [IndicatorClick(2)]).indicators[0]
    ensures Run(c, [IndicatorClick(2)]).slides[2]
  {
  }

  /** Three firings of the interval (18 seconds at one per 6 seconds) advance three slides. */
  lemma ThreeTicksAdvanceThree(c: Carousel)
    requires Valid(c)
    ensures Run(c, Ticks(3)) == Next(Next(Next(c)))
  {
    TicksAdvance(c, 3);
  }
}
