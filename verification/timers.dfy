/**
 The browser's table of repeating timers (`setInterval` / `clearInterval`), abstracted to
 the set of handles whose timer is still live. Periods and elapsed time are not modelled:
 a firing is a plain call of the timer's callback (see `Carousel.Step`).
 */
module Timers {

  /** `live`: handles of running intervals; `next`: a handle the browser has never issued. */
  datatype Table = Table(live: set<nat>, next: nat)

  /** Every live handle was issued before `next`, so `next` is fresh. */
  ghost predicate WellFormed(t: Table)
  {
    forall h :: h in t.live ==> h < t.next
  }

  /** `setInterval`: starts one new interval and returns its handle. */
  function Start(t: Table): (r: (Table, nat))
    ensures r.0.live == t.live + {r.1}
    ensures WellFormed(t) ==> r.1 !in t.live && |r.0.live| == |t.live| + 1
    ensures WellFormed(t) ==> WellFormed(r.0)
  {
    (Table(t.live + {t.next}, t.next + 1), t.next)
  }

  /** `clearInterval(h)`: stops interval `h`; an unknown handle is silently ignored. */
  function Clear(t: Table, h: nat): (r: Table)
    ensures h !in r.live
    ensures forall g :: g in t.live && g != h ==> g in r.live
    ensures r.live <= t.live
    ensures h !in t.live ==> r == t
    ensures WellFormed(t) ==> WellFormed(r)
  {
    t.(live := t.live - {h})
  }

  /**
   Clearing the only live interval and then starting a new one leaves exactly one live
   interval again, under a handle different from the cleared one.
   */
  lemma RestartKeepsOne(t: Table, h: nat)
    requires WellFormed(t) && t.live == {h}
    ensures Start(Clear(t, h)).0.live == {Start(Clear(t, h)).1}
    ensures Start(Clear(t, h)).1 != h
  {
  }
}
