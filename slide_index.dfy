/**
 * The index arithmetic of `showSlide`: a requested slide index is wrapped
 * into the slide list before the list is scrolled, and the previous/next
 * buttons request the recorded active index minus or plus one.
 */
module SlideIndex {

  /**
   * The slide `showSlide` targets when asked for `index` in a carousel of
   * `count` slides: a negative index means the last slide, an index past the
   * end means the first one, anything else is taken as it is. With no slides
   * at all the result names no slide.
   */
  function TargetIndex(index: int, count: nat): (r: int)
    ensures index < 0 ==> r == count - 1
    ensures index >= count ==> r == 0
    ensures 0 <= index < count ==> r == index
    ensures count >= 1 <==> 0 <= r < count
  {
    var wrapped := if index < 0 then count - 1 else index;
    if index >= count then 0 else wrapped
  }

  /**
   * One step from an in-range slide lands where counting modulo the number
   * of slides says: next wraps from the last slide to the first, previous
   * from the first to the last.
   */
  lemma StepIsModular(active: int, count: nat)
    requires 0 <= active < count
    ensures TargetIndex(active + 1, count) == (active + 1) % count
    ensures TargetIndex(active - 1, count) == (active - 1) % count
  {
    if active + 1 < count {
      assert (active + 1) % count == active + 1;
    } else {
      assert (active + 1) % count == 0;
    }
    if active >= 1 {
      assert (active - 1) % count == active - 1;
    } else {
      assert (active - 1) % count == count - 1;
    }
  }
}
