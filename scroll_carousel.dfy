/**
 * The native-scroll infinite carousel. Setup surrounds the N slides of the
 * track with a copy of the last slide in front and a copy of the first slide
 * at the end, creates one dot per slide and scrolls to the first real slide.
 * When a scroll reaches either copy, the scroll handler jumps silently to the
 * real slide the copy stands for, and blocks itself (`isJumping`) until a
 * timer callback releases it. Clicks on the left or right part of the
 * carousel move one slide back or forward.
 *
 * Pixel offsets are integers; the slide width is a positive constant.
 */
module ScrollCarousel {

  import opened Arithmetic

  datatype Slide = Slide(content: string)

  /** A child of the track: an original slide, or a deep copy made by `cloneNode(true)`. */
  datatype Slot = Original(slide: Slide) | Clone(slide: Slide)

  /** Pixels within which an edge of the track counts as reached. */
  const Tolerance: int := 5

  /** The track after setup: copy of the last slide, the slides, copy of the first slide. */
  function InfiniteTrack(slides: seq<Slot>): (t: seq<Slot>)
    requires |slides| > 0
    ensures |t| == |slides| + 2 && t[1..|slides| + 1] == slides
    ensures t[0].Clone? && t[|slides| + 1].Clone?
  {
    [Clone(slides[|slides| - 1].slide)] + slides + [Clone(slides[0].slide)]
  }

  predicate AllOriginal(slides: seq<Slot>)
  {
    forall k :: 0 <= k < |slides| ==> slides[k].Original?
  }

  /**
   * The track has N + 2 positions, copies only at 0 and N + 1, and position
   * k shows the slide of index (k - 1 + N) mod N: the real slides at 1..N,
   * the last slide at 0 and the first slide at N + 1.
   */
  lemma ClonesOnlyAtEnds(slides: seq<Slot>)
    requires |slides| > 0 && AllOriginal(slides)
    ensures |InfiniteTrack(slides)| == |slides| + 2
    ensures forall k :: 0 <= k < |slides| + 2 ==>
      (InfiniteTrack(slides)[k].Clone? <==> k == 0 || k == |slides| + 1)
    ensures forall k :: 0 <= k < |slides| + 2 ==>
      InfiniteTrack(slides)[k].slide == slides[(k - 1 + |slides|) % |slides|].slide
  {
    var n := |slides|;
    var t := InfiniteTrack(slides);
    forall k | 0 <= k < n + 2
      ensures t[k].Clone? <==> k == 0 || k == n + 1
      ensures t[k].slide == slides[(k - 1 + n) % n].slide
    {
      ShownIndexCases(k, n);
      if 0 < k < n + 1 {
        assert t[k] == t[1..n + 1][k - 1] == slides[k - 1];
      }
    }
  }

  /**
   * `Math.round(s / w)` for a positive width: floor(s / w + 1/2), the integer
   * r with r - 1/2 <= s / w < r + 1/2, here multiplied out by 2w.
   */
  function Round(s: int, w: int): (r: int)
    requires w > 0
    ensures 2 * w * r - w <= 2 * s < 2 * w * r + w
  {
    var q := (2 * s + w) / (2 * w);
    var m := (2 * s + w) % (2 * w);
    assert 2 * s + w == (2 * w) * q + m && 0 <= m < 2 * w;
    q
  }

  /** Round gives the nearest integer to the ratio s / w, halves rounded up. */
  lemma RoundIsNearest(s: int, w: int)
    requires w > 0
    ensures (Round(s, w) as real) - 0.5 <= (s as real) / (w as real) < (Round(s, w) as real) + 0.5
  {
    var r := Round(s, w);
    var rr, sr, wr := r as real, s as real, w as real;
    assert ((2 * w * r - w) as real) == 2.0 * wr * rr - wr;
    assert ((2 * w * r + w) as real) == 2.0 * wr * rr + wr;
    assert (2 * s) as real == 2.0 * sr;
    DivBelow(sr, wr, rr - 0.5);
    DivBelow(sr, wr, rr + 0.5);
  }

  /** Only one integer lies within half a width of s / w. */
  lemma RoundUnique(s: int, w: int, r: int)
    requires w > 0
    requires 2 * w * r - w <= 2 * s < 2 * w * r + w
    ensures Round(s, w) == r
  {
    var q := Round(s, w);
    if q > r {
      MulMono(r + 1, q, w);
      assert false;
    } else if q < r {
      MulMono(q + 1, r, w);
      assert false;
    }
  }

  /** Round gives back k on an exact multiple of w. */
  lemma RoundOfMultiple(k: int, w: int)
    requires w > 0
    ensures Round(k * w, w) == k
  {
    assert 2 * w * k == 2 * (k * w);
    RoundUnique(k * w, w, k);
  }

  /** Round of a positive offset is not negative. */
  lemma RoundOfPositive(s: int, w: int)
    requires w > 0 && s > 0
    ensures Round(s, w) >= 0
  {
    var r := Round(s, w);
    if r < 0 {
      MulMono(r, -1, w);
      assert false;
    }
  }

  /**
   * JavaScript's `a % n`: what is left of `a` after taking away a whole
   * number of `n`s, with the sign of the dividend and smaller than `n` in size.
   */
  function JsRem(a: int, n: int): (r: int)
    requires n > 0
    ensures -n < r < n
    ensures a >= 0 ==> 0 <= r
    ensures a < 0 ==> r <= 0
    ensures (a - r) % n == 0
  {
    if a >= 0 then
      ModUnique(a - a % n, n, a / n, 0);
      a % n
    else
      ModUnique(a + (-a) % n, n, -((-a) / n), 0);
      -((-a) % n)
  }

  /**
   * Those four properties determine the remainder: any r that has them is
   * JsRem(a, n). This is truncated division's remainder, as ECMAScript
   * defines `%` on numbers.
   */
  lemma JsRemUnique(a: int, n: int, r: int)
    requires n > 0 && -n < r < n
    requires a >= 0 ==> 0 <= r
    requires a < 0 ==> r <= 0
    requires (a - r) % n == 0
    ensures JsRem(a, n) == r
  {
    var r' := JsRem(a, n);
    var q, q' := (a - r) / n, (a - r') / n;
    assert a - r == n * q;
    assert a - r' == n * q';
    assert r' - r == n * (q - q');
    if q - q' > 0 {
      MulMono(1, q - q', n);
      assert false;
    } else if q - q' < 0 {
      MulMono(q - q', -1, n);
      assert false;
    }
  }

  /** On a dividend that is not negative, JsRem is the mathematical remainder. */
  lemma JsRemOfNatural(a: int, n: int)
    requires n > 0 && a >= 0
    ensures JsRem(a, n) == a % n
  {
    ModUnique(a, n, (a - JsRem(a, n)) / n, JsRem(a, n));
  }

  /** The index of the dot the scroll handler activates at offset s. */
  function ActiveDot(s: int, n: int, w: int): (d: int)
    requires n > 0 && w > 0
    ensures -n < d < n
    ensures (d - (Round(s, w) - 1)) % n == 0
    ensures Round(s, w) - 1 + n >= 0 ==> 0 <= d
  {
    var a := Round(s, w) - 1 + n;
    var d := JsRem(a, n);
    assert a - d == n * ((a - d) / n);
    ModUnique(d - (Round(s, w) - 1), n, 1 - (a - d) / n, 0);
    d
  }

  /**
   * Whether the scroll handler jumps at offset s. With slides wider than the
   * tolerance it jumps only while a copy is partly in view.
   */
  predicate Wraps(s: int, n: int, w: int)
    ensures Wraps(s, n, w) && n > 0 && w > Tolerance ==> s < w || s > n * w
  {
    assert (n + 1) * w == n * w + w;
    s >= (n + 1) * w - Tolerance || s <= Tolerance
  }

  /** The offset once the scroll handler's edge check has run. */
  function AfterWrap(s: int, n: int, w: int): (r: int)
    ensures !Wraps(s, n, w) ==> r == s
    ensures Wraps(s, n, w) ==> r == w || r == n * w
  {
    if s >= (n + 1) * w - Tolerance then w
    else if s <= Tolerance then n * w
    else s
  }

  /** Reaching the copy of the first slide lands on the real first slide, dot 0. */
  lemma TrailingWrap(s: int, n: int, w: int)
    requires n > 0 && w > 0
    requires s >= (n + 1) * w - Tolerance
    ensures Wraps(s, n, w) && AfterWrap(s, n, w) == w
    ensures ActiveDot(AfterWrap(s, n, w), n, w) == 0
  {
    RoundOfMultiple(1, w);
    JsRemOfNatural(n, n);
  }

  /** Reaching the copy of the last slide lands on the real last slide, dot N - 1. */
  lemma LeadingWrap(s: int, n: int, w: int)
    requires n > 0 && w > 0
    requires s < (n + 1) * w - Tolerance && s <= Tolerance
    ensures Wraps(s, n, w) && AfterWrap(s, n, w) == n * w
    ensures ActiveDot(AfterWrap(s, n, w), n, w) == n - 1
  {
    RoundOfMultiple(n, w);
    JsRemOfNatural(2 * n - 1, n);
    ModUnique(2 * n - 1, n, 1, n - 1);
  }

  /**
   * Away from both edges nothing jumps, and the dot is round(s / w) - 1
   * taken modulo N.
   */
  lemma NoWrap(s: int, n: int, w: int)
    requires n > 0 && w > 0
    requires Tolerance < s < (n + 1) * w - Tolerance
    ensures !Wraps(s, n, w) && AfterWrap(s, n, w) == s
    ensures ActiveDot(s, n, w) == (Round(s, w) - 1) % n
  {
    var r := Round(s, w);
    RoundOfPositive(s, w);
    JsRemOfNatural(r - 1 + n, n);
    ModShift(r - 1, n);
  }

  /** After the edge check the dot index always names one of the N dots. */
  lemma DotInRange(s: int, n: int, w: int)
    requires n > 0 && w > 0
    ensures 0 <= ActiveDot(AfterWrap(s, n, w), n, w) < n
  {
    if s >= (n + 1) * w - Tolerance {
      TrailingWrap(s, n, w);
    } else if s <= Tolerance {
      LeadingWrap(s, n, w);
    } else {
      NoWrap(s, n, w);
    }
  }

  /**
   * With slides wider than the tolerance, when position k of the track is
   * exactly in view (offset k * w, copies included), the dot that ends up
   * active is (k - 1 + N) mod N: the index of the slide that position shows.
   */
  lemma DotOfPosition(k: int, n: int, w: int)
    requires n > 0 && w > Tolerance && 0 <= k <= n + 1
    ensures ActiveDot(AfterWrap(k * w, n, w), n, w) == (k - 1 + n) % n
  {
    ShownIndexCases(k, n);
    if k == 0 {
      DotOfLeadingCopy(n, w);
    } else if k == n + 1 {
      DotOfTrailingCopy(n, w);
    } else {
      DotOfRealSlide(k, n, w);
    }
  }

  /** Position k of the track shows slide (k - 1 + N) mod N: N - 1 at 0, 0 at N + 1, k - 1 between. */
  lemma ShownIndexCases(k: int, n: int)
    requires n > 0 && 0 <= k <= n + 1
    ensures (k - 1 + n) % n == if k == 0 then n - 1 else if k == n + 1 then 0 else k - 1
  {
    if k == 0 {
      ModUnique(n - 1, n, 0, n - 1);
    } else if k == n + 1 {
      ModUnique(n, n, 1, 0);
    } else {
      ModUnique(k - 1 + n, n, 1, k - 1);
    }
  }

  lemma DotOfLeadingCopy(n: int, w: int)
    requires n > 0 && w > Tolerance
    ensures ActiveDot(AfterWrap(0 * w, n, w), n, w) == n - 1
  {
    assert (n + 1) * w == n * w + w;
    MulMono(1, n, w);
    LeadingWrap(0, n, w);
  }

  lemma DotOfTrailingCopy(n: int, w: int)
    requires n > 0 && w > Tolerance
    ensures ActiveDot(AfterWrap((n + 1) * w, n, w), n, w) == 0
  {
    TrailingWrap((n + 1) * w, n, w);
  }

  lemma DotOfRealSlide(k: int, n: int, w: int)
    requires n > 0 && w > Tolerance && 1 <= k <= n
    ensures ActiveDot(AfterWrap(k * w, n, w), n, w) == k - 1
  {
    assert (n + 1) * w == n * w + w;
    MulMono(1, k, w);
    MulMono(k, n, w);
    NoWrap(k * w, n, w);
    RoundOfMultiple(k, w);
    ModUnique(k - 1, n, 0, k - 1);
  }

  /** The active dot is the dot of the slide in view, copies included. */
  lemma DotShowsVisibleSlide(slides: seq<Slot>, k: int, w: int)
    requires |slides| > 0 && AllOriginal(slides) && w > Tolerance && 0 <= k < |slides| + 2
    ensures 0 <= ActiveDot(AfterWrap(k * w, |slides|, w), |slides|, w) < |slides|
    ensures slides[ActiveDot(AfterWrap(k * w, |slides|, w), |slides|, w)].slide == InfiniteTrack(slides)[k].slide
  {
    DotOfPosition(k, |slides|, w);
    ClonesOnlyAtEnds(slides);
  }

  /**
   * Moving one slide forward from a real slide activates the next dot
   * cyclically, and one slide back the previous dot, also across the copies.
   */
  lemma StepMovesDot(k: int, n: int, w: int)
    requires n > 0 && w > Tolerance && 1 <= k <= n
    ensures ActiveDot(AfterWrap((k + 1) * w, n, w), n, w) == if k == n then 0 else k
    ensures ActiveDot(AfterWrap((k - 1) * w, n, w), n, w) == if k == 1 then n - 1 else k - 2
  {
    if k == n {
      DotOfTrailingCopy(n, w);
    } else {
      DotOfRealSlide(k + 1, n, w);
    }
    if k == 1 {
      DotOfLeadingCopy(n, w);
    } else {
      DotOfRealSlide(k - 1, n, w);
    }
  }

  /** With slides no wider than the tolerance, the first real slide in view already counts as an edge. */
  lemma NarrowSlidesJump(n: int, w: int)
    requires n > 0 && 0 < w <= Tolerance
    ensures Wraps(w, n, w)
  {
  }

  /** Where a click lands: the left 40%, the right 40% or the middle. */
  datatype Direction = Back | Forward | Stay

  /**
   * The click handler's decision, `x / width` compared with 0.4 and 0.6.
   * The comparison is done on integers, `10x < 4 width` and `10x > 6 width`;
   * for a positive width the contract states it on the ratio itself. It also
   * gives the floating-point result when the width is 0 (x / 0 is an
   * infinity, or NaN for 0 / 0, and NaN compares false).
   */
  function ClickDirection(x: int, width: int): (d: Direction)
    requires width >= 0
    ensures width > 0 ==> (d == Back <==> (x as real) / (width as real) < 0.4)
    ensures width > 0 ==> (d == Forward <==> (x as real) / (width as real) > 0.6)
    ensures width == 0 ==> (d == Back <==> x < 0) && (d == Forward <==> x > 0)
  {
    RatioThresholds(x, width);
    if 10 * x < 4 * width then Back
    else if 10 * x > 6 * width then Forward
    else Stay
  }

  /** The ratio against 0.4 and 0.6, multiplied out by 10 times a positive width. */
  lemma RatioThresholds(x: int, width: int)
    requires width >= 0
    ensures width > 0 ==> ((x as real) / (width as real) < 0.4 <==> 10 * x < 4 * width)
    ensures width > 0 ==> ((x as real) / (width as real) > 0.6 <==> 10 * x > 6 * width)
  {
    if width > 0 {
      DivBelow(x as real, width as real, 0.4);
      DivAtMost(x as real, width as real, 0.6);
    }
  }

  /** The zones are mirror images: a click at x goes back iff a click at width - x goes forward. */
  lemma ClickZonesMirror(x: int, width: int)
    requires width > 0
    ensures ClickDirection(x, width) == Back <==> ClickDirection(width - x, width) == Forward
    ensures ClickDirection(x, width) == Stay <==> ClickDirection(width - x, width) == Stay
  {
  }

  /** A click changes nothing exactly when the ratio lies between 0.4 and 0.6, both included. */
  lemma ClickDeadZone(x: int, width: int)
    requires width > 0
    ensures ClickDirection(x, width) == Stay <==> 0.4 <= (x as real) / (width as real) <= 0.6
  {
  }

  /** The signed number of slide widths a click scrolls by. */
  function Step(d: Direction): (r: int)
    ensures -1 <= r <= 1
    ensures r < 0 <==> d == Back
    ensures r == 0 <==> d == Stay
  {
    match d
    case Back => -1
    case Forward => 1
    case Stay => 0
  }

  /** N dots with only dot j active: when j names a dot, exactly one dot is active. */
  function OneHot(n: nat, j: int): (dots: seq<bool>)
    ensures |dots| == n
    ensures 0 <= j < n ==> dots[j]
    ensures forall i, k :: 0 <= i < k < n && dots[i] ==> !dots[k]
  {
    seq(n, i => i == j)
  }

  /** One carousel container with its track and dots container. */
  class InfiniteCarousel {
    /** `slides[0].offsetWidth`. */
    const width: int
    /** The children of the track. */
    var track: seq<Slot>
    /** The "active" flag of each dot of the dots container. */
    var dots: seq<bool>
    /** `Array.from(track.children)`, taken by setup before the copies are added. */
    var slides: seq<Slot>
    var scrollLeft: int
    var isJumping: bool
    /** Release callbacks scheduled with `setTimeout` and not yet run. */
    var pendingTimers: nat
    /** Whether setup went through and the listeners are attached. */
    var wired: bool
    /** The dot that carries "active". */
    ghost var activeDot: int

    /** The container as the page is loaded, before the script has run. */
    ghost predicate Pristine()
      reads this
    {
      !wired && width > 0 && AllOriginal(track) && dots == [] && slides == [] &&
      !isJumping && pendingTimers == 0
    }

    /** The invariant of a set-up carousel. */
    ghost predicate Valid()
      reads this
    {
      wired && width > 0 && |slides| > 0 && AllOriginal(slides) &&
      track == InfiniteTrack(slides) &&
      0 <= activeDot < |slides| && dots == OneHot(|slides|, activeDot) &&
      pendingTimers == (if isJumping then 1 else 0)
    }

    constructor (children: seq<Slide>, width: int)
      requires width > 0
      ensures Pristine() && this.width == width
      ensures |track| == |children| && forall k :: 0 <= k < |children| ==> track[k] == Original(children[k])
      ensures scrollLeft == 0
    {
      this.width := width;
      track := seq(|children|, k requires 0 <= k < |children| => Original(children[k]));
      dots := [];
      slides := [];
      scrollLeft := 0;
      isJumping := false;
      pendingTimers := 0;
      wired := false;
      activeDot := 0;
    }

    /** `initScroll`: show the first real slide. Run by setup and on the window's load event. */
    method InitScroll()
      modifies this`scrollLeft
      ensures scrollLeft == width
    {
      scrollLeft := width;
    }

    /**
     * Setup, for a container where the track and the dots container are
     * present or not. It does nothing when either is missing or the track
     * has no slides.
     */
    method Setup(hasTrack: bool, hasDots: bool)
      requires Pristine()
      modifies this
      ensures !hasTrack || !hasDots || old(track) == [] ==> unchanged(this)
      ensures hasTrack && hasDots && old(track) != [] ==>
        Valid() && slides == old(track) && track == InfiniteTrack(old(track)) &&
        activeDot == 0 && dots == OneHot(|old(track)|, 0) &&
        scrollLeft == width && !isJumping
    {
      if !hasTrack || !hasDots {
        return;
      }
      var children := track;
      if |children| == 0 {
        return;
      }
      slides := children;
      track := track + [Clone(slides[0].slide)];
      track := [Clone(slides[|slides| - 1].slide)] + track;
      var index := 0;
      while index < |slides|
        modifies this`dots
        invariant 0 <= index <= |slides|
        invariant |dots| == index
        invariant forall i :: 0 <= i < index ==> (dots[i] <==> i == 0)
      {
        dots := dots + [index == 0];
        index := index + 1;
      }
      activeDot := 0;
      isJumping := false;
      InitScroll();
      wired := true;
    }

    /** The browser moves the track: a drag, a wheel or a step of a smooth scroll. */
    method ScrollTo(s: int)
      modifies this`scrollLeft
      ensures scrollLeft == s
    {
      scrollLeft := s;
    }

    /** The scroll listener. */
    method OnScroll()
      requires Valid()
      modifies this
      ensures Valid()
      ensures old(isJumping) ==> unchanged(this)
      ensures !old(isJumping) ==>
        scrollLeft == AfterWrap(old(scrollLeft), |slides|, width) &&
        isJumping == Wraps(old(scrollLeft), |slides|, width) &&
        activeDot == ActiveDot(scrollLeft, |slides|, width) &&
        track == old(track) && slides == old(slides)
    {
      if isJumping {
        return;
      }
      var n := |slides|;
      if scrollLeft >= (n + 1) * width - Tolerance {
        isJumping := true;
        scrollLeft := width;
        pendingTimers := pendingTimers + 1;
      } else if scrollLeft <= Tolerance {
        isJumping := true;
        scrollLeft := n * width;
        pendingTimers := pendingTimers + 1;
      }
      DotInRange(old(scrollLeft), n, width);
      var idx := Round(scrollLeft, width) - 1;
      var target := JsRem(idx + n, n);
      var i := 0;
      while i < n
        modifies this`dots
        invariant 0 <= i <= n == |dots|
        invariant forall j :: 0 <= j < i ==> (dots[j] <==> j == target)
        invariant forall j :: i <= j < n ==> dots[j] == old(dots)[j]
      {
        dots := dots[i := i == target];
        i := i + 1;
      }
      activeDot := target;
    }

    /** The release timer callback: the only place `isJumping` goes back to false. */
    method TimerFire()
      requires Valid() && pendingTimers > 0
      modifies this
      ensures Valid() && !isJumping && pendingTimers == 0
      ensures scrollLeft == old(scrollLeft) && dots == old(dots) && activeDot == old(activeDot)
      ensures track == old(track) && slides == old(slides)
    {
      isJumping := false;
      pendingTimers := pendingTimers - 1;
    }

    /**
     * The click listener, for a click at `x` pixels from the carousel's left
     * edge in a carousel `rectWidth` wide; `onDots` when the click hit a dot
     * or the dots container.
     */
    method Click(x: int, rectWidth: int, onDots: bool)
      requires Valid() && rectWidth >= 0
      modifies this
      ensures Valid()
      ensures old(isJumping) || onDots ==> unchanged(this)
      ensures !old(isJumping) && !onDots ==>
        scrollLeft == old(scrollLeft) + Step(ClickDirection(x, rectWidth)) * width
      ensures isJumping == old(isJumping) && dots == old(dots) && activeDot == old(activeDot)
      ensures track == old(track) && slides == old(slides)
    {
      if isJumping {
        return;
      }
      if onDots {
        return;
      }
      var slideWidth := width;
      var currentScroll := scrollLeft;
      var d := ClickDirection(x, rectWidth);
      if d == Back {
        ScrollTo(currentScroll - slideWidth);
      } else if d == Forward {
        ScrollTo(currentScroll + slideWidth);
      }
    }

    /** The click listener of dot `index`: scroll to the real slide it stands for. It is not guarded. */
    method DotClick(index: int)
      requires Valid() && 0 <= index < |slides|
      modifies this
      ensures Valid()
      ensures scrollLeft == (index + 1) * width
      ensures isJumping == old(isJumping) && dots == old(dots) && activeDot == old(activeDot)
      ensures track == old(track) && slides == old(slides)
    {
      ScrollTo((index + 1) * width);
    }
  }

  /** After a click on dot i, the next unguarded scroll event activates dot i. */
  lemma DotClickActivatesDot(i: int, n: int, w: int)
    requires n > 0 && w > Tolerance && 0 <= i < n
    ensures ActiveDot(AfterWrap((i + 1) * w, n, w), n, w) == i
  {
    DotOfRealSlide(i + 1, n, w);
  }
}
