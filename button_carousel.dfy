/**
 * The button-driven carousel, for a carousel container without a dots
 * container: an index into the N slides that the "next" and "prev" buttons
 * move circularly, shown by translating the track left by the index times
 * the slide width. A window resize re-renders after a debounce timer.
 */
module ButtonCarousel {

  import opened Arithmetic

  /** The "next" button: the last slide wraps to the first. */
  function Next(i: int, n: int): (r: int)
    requires 0 <= i < n
    ensures 0 <= r < n
    ensures r == (i + 1) % n
  {
    if i == n - 1 then
      ModUnique(n, n, 1, 0);
      0
    else
      ModUnique(i + 1, n, 0, i + 1);
      i + 1
  }

  /** The "prev" button: the first slide wraps to the last. */
  function Prev(i: int, n: int): (r: int)
    requires 0 <= i < n
    ensures 0 <= r < n
    ensures r == (i - 1 + n) % n
  {
    if i == 0 then
      ModUnique(n - 1, n, 0, n - 1);
      n - 1
    else
      ModUnique(i - 1 + n, n, 1, i - 1);
      i - 1
  }

  /** "prev" undoes "next" and "next" undoes "prev". */
  lemma NextPrevInverse(i: int, n: int)
    requires 0 <= i < n
    ensures Prev(Next(i, n), n) == i
    ensures Next(Prev(i, n), n) == i
  {
  }

  /** The index after k clicks on "next". */
  function NextTimes(i: int, k: nat, n: int): (r: int)
    requires 0 <= i < n
    ensures 0 <= r < n
  {
    if k == 0 then i else Next(NextTimes(i, k - 1, n), n)
  }

  /** k clicks on "next" add k modulo N. */
  lemma {:induction false} NextTimesAdds(i: int, k: nat, n: int)
    requires 0 <= i < n
    ensures NextTimes(i, k, n) == (i + k) % n
  {
    if k == 0 {
      ModUnique(i, n, 0, i);
    } else {
      NextTimesAdds(i, k - 1, n);
      ModSucc(i + k - 1, n);
    }
  }

  /** N clicks on "next" come back to the slide they started from. */
  lemma FullCycle(i: int, n: int)
    requires 0 <= i < n
    ensures NextTimes(i, n, n) == i
  {
    NextTimesAdds(i, n, n);
    ModUnique(i + n, n, 1, i);
  }

  /** `translateX(-(slideWidth * currentIndex) px)`: slide i moved to the left edge of the track. */
  function Translation(slideWidth: int, i: int): (t: int)
    requires slideWidth >= 0 && i >= 0
    ensures t <= 0
    ensures slideWidth > 0 ==> (t == 0 <==> i == 0)
  {
    -(slideWidth * i)
  }

  /**
   * Slides further along the track are translated further left: slide j sits
   * exactly j - i slide widths left of slide i, so at least one width.
   */
  lemma TranslationMonotone(slideWidth: int, i: int, j: int)
    requires slideWidth > 0 && 0 <= i < j
    ensures Translation(slideWidth, j) == Translation(slideWidth, i) - slideWidth * (j - i)
    ensures Translation(slideWidth, j) <= Translation(slideWidth, i) - slideWidth
  {
    assert slideWidth * j == slideWidth * i + slideWidth * (j - i);
    MulMono(1, j - i, slideWidth);
  }

  class Carousel {
    /** `slides.length`. */
    const slideCount: int
    /** `slides[0].getBoundingClientRect().width` as the layout has it now. */
    var slideWidth: int
    var currentIndex: int
    /** The horizontal translation of the track, in pixels. */
    var translation: int
    /** Whether a resize timer is scheduled and has not run yet. */
    var resizePending: bool
    /** Whether setup went through and the listeners are attached. */
    var wired: bool

    /** The invariant: the index names a slide, and the track shows it unless a re-render is pending. */
    ghost predicate Valid()
      reads this
    {
      wired && slideCount > 0 && slideWidth >= 0 &&
      0 <= currentIndex < slideCount &&
      (resizePending || translation == Translation(slideWidth, currentIndex))
    }

    /**
     * Setup for one carousel container: it is skipped when the container has
     * a dots container, when the track or either button is missing, or when
     * the track has no slides. Otherwise the index starts at 0.
     */
    constructor (slideCount: int, slideWidth: int, hasDots: bool, hasTrack: bool, hasNext: bool, hasPrev: bool)
      requires slideCount >= 0 && slideWidth >= 0
      ensures wired <==> !hasDots && hasTrack && hasNext && hasPrev && slideCount > 0
      ensures wired ==> Valid() && currentIndex == 0 && translation == 0 && !resizePending
      ensures this.slideCount == slideCount && this.slideWidth == slideWidth
    {
      this.slideCount := slideCount;
      this.slideWidth := slideWidth;
      currentIndex := 0;
      translation := 0;
      resizePending := false;
      wired := !hasDots && hasTrack && hasNext && hasPrev && slideCount > 0;
    }

    /** `updateCarousel`: render the current index with the width measured now. */
    method Update()
      requires slideWidth >= 0 && currentIndex >= 0
      modifies this`translation
      ensures translation == Translation(slideWidth, currentIndex)
    {
      translation := Translation(slideWidth, currentIndex);
    }

    /** The "next" button's click listener. */
    method NextClick()
      requires Valid()
      modifies this
      ensures Valid()
      ensures currentIndex == Next(old(currentIndex), slideCount)
      ensures translation == Translation(slideWidth, currentIndex)
      ensures slideWidth == old(slideWidth) && resizePending == old(resizePending)
    {
      if currentIndex == slideCount - 1 {
        currentIndex := 0;
      } else {
        currentIndex := currentIndex + 1;
      }
      Update();
    }

    /** The "prev" button's click listener. */
    method PrevClick()
      requires Valid()
      modifies this
      ensures Valid()
      ensures currentIndex == Prev(old(currentIndex), slideCount)
      ensures translation == Translation(slideWidth, currentIndex)
      ensures slideWidth == old(slideWidth) && resizePending == old(resizePending)
    {
      if currentIndex == 0 {
        currentIndex := slideCount - 1;
      } else {
        currentIndex := currentIndex - 1;
      }
      Update();
    }

    /**
     * The window was resized and the slides now measure `newWidth`; the
     * listener cancels any scheduled re-render and schedules a new one.
     */
    method OnResize(newWidth: int)
      requires Valid() && newWidth >= 0
      modifies this
      ensures Valid() && resizePending
      ensures slideWidth == newWidth && currentIndex == old(currentIndex) && translation == old(translation)
    {
      slideWidth := newWidth;
      resizePending := true;
    }

    /** The debounce timer runs `updateCarousel` with the width measured then. */
    method ResizeTimerFire()
      requires Valid() && resizePending
      modifies this
      ensures Valid() && !resizePending
      ensures translation == Translation(slideWidth, currentIndex)
      ensures slideWidth == old(slideWidth) && currentIndex == old(currentIndex)
    {
      resizePending := false;
      Update();
    }
  }
}
