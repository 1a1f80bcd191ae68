/** The splash screen's image carousel: an index into six images that moves
    one step forward, cyclically, each time a slide animation completes. The
    image after the current one is drawn in the sliding layer behind it. */
module Carousel {
  const ImageCount: nat := 6

  /** The index the screen starts with. */
  const InitialIndex: nat := 0

  /** The index after one completed slide. */
  function Advance(i: nat): (j: nat)
    ensures j < ImageCount
    ensures i < ImageCount - 1 ==> j == i + 1
    ensures i == ImageCount - 1 ==> j == 0
  {
    (i + 1) % ImageCount
  }

  /** The index of the image in the sliding layer. */
  function BackgroundIndex(i: nat): (j: nat)
    ensures j < ImageCount
    ensures i < ImageCount ==> j != i
  {
    (i + 1) % ImageCount
  }

  /** The index after `n` completed slides from `i`. */
  function AdvanceTimes(i: nat, n: nat): (j: nat)
    ensures i < ImageCount || n > 0 ==> j < ImageCount
  {
    if n == 0 then i else Advance(AdvanceTimes(i, n - 1))
  }

  /** After `n` slides the index has moved `n` places, modulo six. */
  lemma {:induction false} AdvanceTimesShifts(i: nat, n: nat)
    requires i < ImageCount
    ensures AdvanceTimes(i, n) == (i + n) % ImageCount
  {
    if n > 0 {
      AdvanceTimesShifts(i, n - 1);
    }
  }

  /** Six slides bring the index back to where it started. */
  lemma SixSlidesReturn(i: nat)
    requires i < ImageCount
    ensures AdvanceTimes(i, ImageCount) == i
  {
    AdvanceTimesShifts(i, ImageCount);
  }

  /** Every index the screen shows, after any number of slides from the
      start, is that number modulo six; the image that slides in is the
      one shown after the slide. */
  lemma ReachableIndices(n: nat)
    ensures AdvanceTimes(InitialIndex, n) == n % ImageCount
    ensures BackgroundIndex(AdvanceTimes(InitialIndex, n)) == AdvanceTimes(InitialIndex, n + 1)
  {
    AdvanceTimesShifts(InitialIndex, n);
  }
}
