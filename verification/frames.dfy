/**
 * The pure arithmetic of a crop run: the effective rectangle (the requested
 * rectangle clipped to the frame) and the frame indices a definition samples.
 */
module Frames {
  import opened Wrappers

  /** A pixel rectangle, right and bottom exclusive. */
  datatype Rect = Rect(left: int, top: int, right: int, bottom: int)

  function Max(a: int, b: int): int { if a < b then b else a }

  function Min(a: int, b: int): int { if a < b then a else b }

  /** Pixel (x, y) lies inside the rectangle. */
  predicate Covers(r: Rect, x: int, y: int)
  {
    r.left <= x < r.right && r.top <= y < r.bottom
  }

  /** The whole frame of a video of the given size. */
  function FullFrame(width: int, height: int): Rect
  {
    Rect(0, 0, width, height)
  }

  /**
   * The rectangle `do_crop` cuts: the full frame when the definition has no
   * rectangle, otherwise each bound of the requested rectangle clamped to
   * the frame. It covers exactly the pixels that are both in the frame and
   * in the requested rectangle.
   */
  function EffectiveRect(requested: Option<Rect>, width: int, height: int): (r: Rect)
    ensures forall x, y :: Covers(r, x, y) <==>
      Covers(FullFrame(width, height), x, y) && (requested.Some? ==> Covers(requested.value, x, y))
    ensures 0 <= r.left && 0 <= r.top && r.right <= width && r.bottom <= height
    ensures requested.None? ==> r == FullFrame(width, height)
  {
    match requested
    case None => FullFrame(width, height)
    case Some(q) => Rect(Max(0, q.left), Max(0, q.top), Min(width, q.right), Min(height, q.bottom))
  }

  /** The test `do_crop` applies before reading any frame. */
  predicate IsEmptyRegion(r: Rect)
  {
    r.right <= r.left || r.bottom <= r.top
  }

  /** A region is refused exactly when it covers no pixel. */
  lemma EmptyRegionCoversNothing(r: Rect)
    ensures IsEmptyRegion(r) <==> forall x, y :: !Covers(r, x, y)
  {
    if !IsEmptyRegion(r) {
      assert Covers(r, r.left, r.top);
    }
  }

  /** An 800x600 frame clips (-10, 50, 900, 550) to (0, 50, 800, 550). */
  lemma ClampExample()
    ensures EffectiveRect(Some(Rect(-10, 50, 900, 550)), 800, 600) == Rect(0, 50, 800, 550)
    ensures IsEmptyRegion(EffectiveRect(Some(Rect(100, 100, 100, 200)), 800, 600))
  {
  }

  /** Python's `range(start, end, step)` for a positive step, as a sequence. */
  function Sampled(start: int, end: int, step: int): (s: seq<int>)
    requires step >= 1
    ensures forall i :: 0 <= i < |s| ==> start <= s[i] < end
    decreases end - start
  {
    if start < end then [start] + Sampled(start + step, end, step) else []
  }

  /**
   * The sampled indices are `start + i * step` for `i` from 0 while that is
   * below `end`: element `i` is `start + i * step`, the last one is below
   * `end` and one more step would reach it.
   */
  lemma SampledIsRange(start: int, end: int, step: int)
    requires step >= 1
    ensures forall i :: 0 <= i < |Sampled(start, end, step)| ==> Sampled(start, end, step)[i] == start + i * step
    ensures start + |Sampled(start, end, step)| * step >= end
    ensures |Sampled(start, end, step)| > 0 ==> start + (|Sampled(start, end, step)| - 1) * step < end
  {
    SampledElements(start, end, step);
    SampledBounds(start, end, step);
  }

  /** Element `i` of the sampled indices is `start + i * step`. */
  lemma {:induction false} SampledElements(start: int, end: int, step: int)
    requires step >= 1
    ensures forall i :: 0 <= i < |Sampled(start, end, step)| ==> Sampled(start, end, step)[i] == start + i * step
    decreases end - start
  {
    if start < end {
      var s, t := Sampled(start, end, step), Sampled(start + step, end, step);
      SampledElements(start + step, end, step);
      forall i | 0 <= i < |s|
        ensures s[i] == start + i * step
      {
        if i > 0 {
          assert s[i] == t[i - 1];
          OneMoreStep(i - 1, step);
        }
      }
    }
  }

  /** The last sampled index is below `end` and one more step would reach it. */
  lemma {:induction false} SampledBounds(start: int, end: int, step: int)
    requires step >= 1
    ensures start + |Sampled(start, end, step)| * step >= end
    ensures |Sampled(start, end, step)| > 0 ==> start + (|Sampled(start, end, step)| - 1) * step < end
    decreases end - start
  {
    if start < end {
      var n := |Sampled(start + step, end, step)|;
      SampledBounds(start + step, end, step);
      OneMoreStep(n, step);
    }
  }

  /** One more step: `(n + 1) * step` is `n * step + step`. */
  lemma OneMoreStep(n: int, step: int)
    ensures n * step + step == (n + 1) * step
  {
  }

  /**
   * The sampled indices are exactly the numbers in `[start, end)` that are
   * a whole number of steps past `start`.
   */
  lemma SampledMembers(start: int, end: int, step: int, x: int)
    requires step >= 1
    ensures x in Sampled(start, end, step) <==> start <= x < end && (x - start) % step == 0
  {
    if x in Sampled(start, end, step) {
      SampledMemberIsStep(start, end, step, x);
    }
    if start <= x < end && (x - start) % step == 0 {
      StepIsSampledMember(start, end, step, x);
    }
  }

  lemma SampledMemberIsStep(start: int, end: int, step: int, x: int)
    requires step >= 1 && x in Sampled(start, end, step)
    ensures start <= x < end && (x - start) % step == 0
  {
    var s := Sampled(start, end, step);
    SampledIsRange(start, end, step);
    var i :| 0 <= i < |s| && s[i] == x;
    assert x - start == i * step;
    MultipleMod(i, step);
  }

  lemma StepIsSampledMember(start: int, end: int, step: int, x: int)
    requires step >= 1 && start <= x < end && (x - start) % step == 0
    ensures x in Sampled(start, end, step)
  {
    var s := Sampled(start, end, step);
    SampledIsRange(start, end, step);
    var d := x - start;
    var i := d / step;
    assert d == step * i + d % step;
    assert d == i * step;
    assert i >= 0 by {
      assert i <= -1 ==> step * i <= -step;
    }
    assert i < |s| by {
      assert i >= |s| ==> i * step >= |s| * step by {
        if i >= |s| {
          MonotoneMul(|s|, i, step);
        }
      }
    }
    assert s[i] == x;
  }

  /** A whole multiple of `step` leaves no remainder. */
  lemma MultipleMod(i: int, step: int)
    requires step >= 1
    ensures (i * step) % step == 0
  {
    var q, r := (i * step) / step, (i * step) % step;
    assert step * (i - q) == r;
    assert i - q >= 1 ==> step * (i - q) >= step;
    assert i - q <= -1 ==> step * (i - q) <= -step;
  }

  lemma MonotoneMul(a: nat, b: nat, step: int)
    requires a <= b && step >= 1
    ensures a * step <= b * step
  {
  }
}
