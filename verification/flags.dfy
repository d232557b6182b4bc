/**
 The "active" markers of the testimonial carousel, as sequences of booleans.
 Position k of a sequence stands for the k-th slide (or indicator) element, and
 `true` means that element currently carries the `active` class.
 */
module Flags {

  /** The flags `updateCarousel` writes: position k is set exactly when k == current. */
  function Mark(n: nat, current: int): (r: seq<bool>)
    ensures |r| == n && OneHot(r, current)
  {
    seq(n, k => k == current)
  }

  /** Every position k carries `k == current`: the one-hot shape of a rendered collection. */
  ghost predicate OneHot(flags: seq<bool>, current: int)
  {
    forall k :: 0 <= k < |flags| ==> (flags[k] <==> k == current)
  }

  /** Number of elements that carry the active marker. */
  function CountTrue(flags: seq<bool>): (r: nat)
    ensures r <= |flags|
  {
    if |flags| == 0 then 0
    else CountTrue(flags[..|flags| - 1]) + (if flags[|flags| - 1] then 1 else 0)
  }

  /**
   A one-hot collection has exactly one active element when `current` names one of its
   positions, and none otherwise.
   */
  lemma {:induction false} CountOneHot(flags: seq<bool>, current: int)
    requires OneHot(flags, current)
    ensures CountTrue(flags) == (if 0 <= current < |flags| then 1 else 0)
    decreases |flags|
  {
    if |flags| > 0 {
      var front := flags[..|flags| - 1];
      assert OneHot(front, current) by {
        forall k | 0 <= k < |front|
          ensures front[k] <==> k == current
        {
          assert front[k] == flags[k];
        }
      }
      CountOneHot(front, current);
    }
  }

  /** Two one-hot collections of the same size for the same position are the same collection. */
  lemma OneHotUnique(a: seq<bool>, b: seq<bool>, current: int)
    requires |a| == |b|
    requires OneHot(a, current) && OneHot(b, current)
    ensures a == b
  {
    assert forall k :: 0 <= k < |a| ==> a[k] == b[k];
  }

  /**
   `classList.toggle` with a force flag that is true exactly at the index, applied to every
   element in order, as the `forEach` loops of `updateCarousel` do it.
   */
  method Toggle(flags: seq<bool>, current: int) returns (r: seq<bool>)
    ensures |r| == |flags|
    ensures OneHot(r, current)
    ensures r == Mark(|flags|, current)
  {
    r := flags;
    var index := 0;
    while index < |r|
      invariant 0 <= index <= |r| == |flags|
      invariant forall k :: 0 <= k < index ==> (r[k] <==> k == current)
    {
      r := r[index := index == current];
      index := index + 1;
    }
    OneHotUnique(r, Mark(|flags|, current), current);
  }
}
