# Portfolio site behaviour, modelled in Dafny

A portfolio website ships one client-side script, `script.js`. It wires browser
events to changes in the page. This project models the parts of that script that
carry state or logic:

- **Navigation highlighting** (`nav.dfy`, module `NavHighlight`). The page name is
  the last segment of the location's path. A navigation link is underlined when
  its `href` is that name, or is `index.html` while the name is empty.
- **Tab dispatcher** (`tabs.dfy`, module `TabDispatch`). There are two families of
  tab buttons and panels: `tab-btn`/`tab-content` and `eval-btn`/`eval-content`.
  A click clears the `active` flag of every button and panel of the clicked
  button's family in its container. It then activates the clicked button and the
  panel whose id is the button's `data-target`.
- **Native-scroll infinite carousel** (`scroll_carousel.dfy`, module
  `ScrollCarousel`, class `InfiniteCarousel`). Setup puts a copy of the last slide
  before the slides and a copy of the first slide after them, creates one dot per
  slide and scrolls to the first real slide. The scroll handler jumps from either
  copy to the real slide it stands for. The `isJumping` flag blocks the scroll and
  click handlers until a timer callback clears it. After every scroll that is not
  blocked, the handler activates exactly one dot. A click on the left 40% or the
  right 40% of the carousel scrolls one slide back or forward.
- **Button-driven carousel** (`button_carousel.dfy`, module `ButtonCarousel`,
  class `Carousel`). An index into the N slides is moved circularly by "next" and
  "prev". It is rendered as a translation of the track by the index times the
  slide width, and re-rendered after a debounced window resize.
- `arithmetic.dfy` (module `Arithmetic`) holds the facts about multiplication and
  remainders that the carousel proofs use.

Pixel values are integers and the slide width is a positive integer.
`Math.round(s / w)` is `(2s + w) / (2w)`, which is exact for every integer `s`
when `w > 0`. JavaScript's `%` keeps the sign of the dividend, so it is modelled
separately (`JsRem`). The click ratio `x / width` compared with 0.4 and 0.6
becomes `10x < 4·width` and `10x > 6·width`. For a zero width this gives the same
answers as the floating-point division (an infinity, or NaN for 0/0).

Each event handler is a method. The events the browser produces itself are
methods too, because the handlers react to them:
- `ScrollTo` moves the scroll offset, as a drag, a wheel or a smooth-scroll step does.
- `TimerFire` and `ResizeTimerFire` run the scheduled callbacks.
- `OnResize` stands for a window resize that changes the measured slide width.

Three behaviours of the code worth noting:
- `querySelector('#' + target)` searches the whole container. It can therefore
  activate a panel of the other family that carries the target id, and the model
  does the same.
- A dot click scrolls so that the dot's slide starts at the left edge, at offset
  `(i + 1)·w`. The dot click listener also ignores
  `isJumping`: only the carousel's own click handler is blocked while a jump is
  pending.
- The scroll handler compares the offset with both edges using the current slide
  width. For slides at most 5 px wide the edge windows cover the real slides
  (`NarrowSlidesJump`). So the lemmas that relate the active dot to the visible
  slide require `w > 5`.

## Model

| member | source | states |
|---|---|---|
| NavHighlight.Split | script.js:5 | `split('/')` yields at least one piece and no piece contains '/' |
| NavHighlight.JoinSplit | script.js:5 | joining the pieces of a split with '/' gives the path back |
| NavHighlight.SplitLast | script.js:5 | the last piece is a suffix of the path that is the whole path or directly follows a '/'; with several pieces it is shorter than the path |
| NavHighlight.LastSegment | script.js:5 | the page name (`pop()` of the split) holds no '/', is a suffix of the path, and is the whole path or follows a '/' |
| NavHighlight.LastSegmentOfFile | script.js:5 | the page name of `dir/file` is `file` for any directory |
| NavHighlight.LastSegmentOfBareName | script.js:5 | a path without '/' is its own page name |
| NavHighlight.IsCurrentLink | script.js:9 | a link that matches has an href that is the page name or `index.html`; a link whose href is the page name always matches |
| NavHighlight.CurrentLinkOnPage | script.js:9 | on page `dir/file` a link is underlined iff its href is `file`, or `index.html` when `file` is empty; a link without href never is |
| NavHighlight.HighlightNav | script.js:6-13 | the loop over the links marks exactly the links that match the current page name |
| TabDispatch.Deactivate | script.js:99-102 | removing "active" from a family keeps every element, so the sequence keeps its length |
| TabDispatch.DeactivateAt | script.js:99-102 | removing "active" from a family clears the flag of each element of that family and leaves every other element as it was |
| TabDispatch.FindById | script.js:106 | the lookup returns the first panel from a position on whose id is the target, or none when there is none |
| TabDispatch.TargetPanel | script.js:106 | the panel found is the first one whose id is the target; no panel is found for an empty target (an invalid selector) or when no id matches |
| TabDispatch.DeactivateAll | script.js:99-102 | the `forEach` loop yields exactly the deactivated sequence |
| TabDispatch.ClickButtons | script.js:98-105 | the buttons after a click are as many as before (their flags are given by ClickedButtonOnlyActive) |
| TabDispatch.ClickPanels | script.js:101-109 | the panels after a click are as many as before (their flags are given by ClickedPanelOnlyActive) |
| TabDispatch.TabContainer.Click | script.js:91-110 | after a click the buttons and panels are those of deactivating the family, activating the clicked button and activating the target panel |
| TabDispatch.ClickedButtonOnlyActive | script.js:98-105 | within the clicked family the clicked button is the only active button; the other family's buttons are unchanged; no family or target changes |
| TabDispatch.ClickedPanelOnlyActive | script.js:101-109 | within the family the only active panel is the target panel, or none; the target panel is active whatever its family; other panels of the other family are unchanged |
| TabDispatch.SameNamesSameTarget | script.js:106 | the target lookup depends on the ids only, not on the flags that were cleared |
| TabDispatch.UniqueTargetPanel | script.js:101-109 | with unique ids and a target in the clicked family, exactly that panel of the family is active and the other family is untouched |
| ScrollCarousel.InfiniteTrack | script.js:124-126 | the track gains two slots, both copies, at its two ends, and the original slides stay between them in order |
| ScrollCarousel.ClonesOnlyAtEnds | script.js:121-126 | the track has N+2 slots, copies only at 0 and N+1, and slot k shows slide (k-1+N) mod N |
| ScrollCarousel.Round | script.js:159 | `Math.round(s / w)` is the integer r with 2wr - w <= 2s < 2wr + w |
| ScrollCarousel.RoundIsNearest | script.js:159 | on the real ratio: r - 1/2 <= s / w < r + 1/2, the nearest integer with halves rounded up |
| ScrollCarousel.RoundUnique | script.js:159 | only one integer satisfies those bounds |
| ScrollCarousel.RoundOfMultiple | script.js:159 | rounding k·w / w gives k |
| ScrollCarousel.RoundOfPositive | script.js:159 | rounding a positive offset gives a non-negative value |
| ScrollCarousel.JsRem | script.js:160 | JavaScript's `a % n` lies strictly between -n and n, has the sign of the dividend, and differs from a by a multiple of n |
| ScrollCarousel.JsRemUnique | script.js:160 | those four properties determine the remainder: any value with them is JsRem(a, n) |
| ScrollCarousel.ActiveDot | script.js:159-160 | the dot index lies strictly between -N and N, is congruent to round(s / w) - 1 modulo N, and is not negative whenever round(s / w) - 1 + N is not |
| ScrollCarousel.Wraps | script.js:148-158 | with slides wider than 5 px the handler jumps only while a copy is partly in view (offset below w or above N·w) |
| ScrollCarousel.AfterWrap | script.js:148-158 | without a jump the offset stays; with one it becomes w or N·w, the position of a real end slide |
| ScrollCarousel.TrailingWrap | script.js:148-152 | an offset at or past (N+1)·w - 5 jumps to w, and dot 0 becomes active |
| ScrollCarousel.LeadingWrap | script.js:153-157 | otherwise an offset of at most 5 jumps to N·w, and dot N-1 becomes active |
| ScrollCarousel.NoWrap | script.js:148-160 | strictly between the two edges nothing jumps and the dot is (round(s/w) - 1) mod N |
| ScrollCarousel.DotInRange | script.js:159-160 | after the edge check the dot index always names one of the N dots |
| ScrollCarousel.ShownIndexCases | script.js:125-126 | slot k shows slide N-1 at 0, slide 0 at N+1 and slide k-1 in between |
| ScrollCarousel.DotOfLeadingCopy | script.js:153-160 | with the leading copy in view the handler activates dot N-1 |
| ScrollCarousel.DotOfTrailingCopy | script.js:148-160 | with the trailing copy in view the handler activates dot 0 |
| ScrollCarousel.DotOfRealSlide | script.js:159-160 | with real slot k (1..N) in view and w > 5 the handler activates dot k-1 |
| ScrollCarousel.DotOfPosition | script.js:148-160 | with slot k in view (copies included) the handler activates dot (k-1+N) mod N |
| ScrollCarousel.DotShowsVisibleSlide | script.js:121-160 | the active dot's slide is the slide shown at the slot in view |
| ScrollCarousel.StepMovesDot | script.js:177-183 | one slide forward from real slot k activates the next dot cyclically, one slide back the previous one, across the copies too |
| ScrollCarousel.NarrowSlidesJump | script.js:148-153 | with slides at most 5 px wide the first real slide already counts as an edge |
| ScrollCarousel.RatioThresholds | script.js:175-180 | for a positive width, `x / width < 0.4` iff 10x < 4·width and `x / width > 0.6` iff 10x > 6·width |
| ScrollCarousel.ClickDirection | script.js:175-183 | for a positive width: back iff the real ratio x / width is below 0.4, forward iff it is above 0.6; for width 0: the sign of x decides, as with IEEE division |
| ScrollCarousel.ClickZonesMirror | script.js:175-183 | the back and forward zones are mirror images of each other and the dead zone is symmetric |
| ScrollCarousel.ClickDeadZone | script.js:175-183 | a click changes nothing exactly when the real ratio x / width lies in [0.4, 0.6] |
| ScrollCarousel.Step | script.js:177-183 | a click scrolls by at most one slide width: backwards exactly in the back zone, not at all in the dead zone |
| ScrollCarousel.OneHot | script.js:160 | the dots number N, the chosen dot is active and no two dots are active |
| ScrollCarousel.DotClickActivatesDot | script.js:132-134 | after a click on dot i, the next scroll event that is not blocked activates dot i |
| ScrollCarousel.InfiniteCarousel.InitScroll | script.js:141-143 | the offset becomes exactly one slide width |
| ScrollCarousel.InfiniteCarousel.Setup | script.js:118-143 | nothing changes without track, dots container or slides; otherwise the track is [copy of last] + slides + [copy of first], N dots with only dot 0 active, offset w, not jumping, and the invariant holds |
| ScrollCarousel.InfiniteCarousel.OnScroll | script.js:145-161 | while jumping nothing changes; otherwise the offset becomes the wrapped offset, `isJumping` is set iff an edge was reached, exactly one dot is active and it is the computed dot |
| ScrollCarousel.InfiniteCarousel.TimerFire | script.js:152 | the pending timer clears `isJumping` and changes nothing else |
| ScrollCarousel.InfiniteCarousel.Click | script.js:164-184 | while jumping or on the dots nothing changes; otherwise the offset moves by -w, +w or 0 according to the click zone |
| ScrollCarousel.InfiniteCarousel.ScrollTo | script.js:133-182 | the `scrollTo` calls at lines 133, 179 and 182, and the browser's own scrolling, leave the track at the requested offset |
| ScrollCarousel.InfiniteCarousel.DotClick | script.js:132-134 | the offset becomes (i+1)·w whether or not a jump is pending; nothing else changes |
| ButtonCarousel.Next | script.js:241-249 | the next index stays in [0, N) and is (i+1) mod N |
| ButtonCarousel.Prev | script.js:251-259 | the previous index stays in [0, N) and is (i-1+N) mod N |
| ButtonCarousel.NextPrevInverse | script.js:241-259 | prev after next, and next after prev, is the identity |
| ButtonCarousel.NextTimes | script.js:241-249 | any number of next clicks keeps the index in [0, N) |
| ButtonCarousel.NextTimesAdds | script.js:241-249 | k next clicks add k modulo N |
| ButtonCarousel.FullCycle | script.js:241-249 | N next clicks return to the starting slide |
| ButtonCarousel.Translation | script.js:238 | the translation is never positive and is zero only for the first slide |
| ButtonCarousel.TranslationMonotone | script.js:238 | slide j is translated exactly (j - i) slide widths further left than slide i, so at least one width |
| ButtonCarousel.Carousel.constructor | script.js:219-234 | setup goes through iff there is no dots container, the track and both buttons are present and there are slides; the index then starts at 0 |
| ButtonCarousel.Carousel.Update | script.js:236-239 | the translation becomes slide width times current index, leftwards |
| ButtonCarousel.Carousel.NextClick | script.js:241-249 | the index becomes Next of the old index and the track shows it |
| ButtonCarousel.Carousel.PrevClick | script.js:251-259 | the index becomes Prev of the old index and the track shows it |
| ButtonCarousel.Carousel.OnResize | script.js:263-266 | a resize keeps the index and schedules exactly one re-render |
| ButtonCarousel.Carousel.ResizeTimerFire | script.js:265 | the re-render shows the current index with the width measured now |

## Left out

- Contact form submission (script.js:16-65): an asynchronous `fetch`, a JSON error body, `alert` and promise chaining. This is network I/O without sequential logic to prove.
- Reveal-on-scroll (script.js:69-83): an `IntersectionObserver` callback that only writes CSS style strings.
- Ecosystem map zoom (script.js:188-215): floating-point percentages written into CSS `transformOrigin` strings, plus a delayed reset.
- Timer durations (50 ms, 100 ms, 300 ms) are not modelled. A pending callback is an explicit method, and the timer's own callback is the only way to release it.
- The `scrollBehavior` switch between "auto" and "smooth" is not modelled.
- `console.log`, the underline style strings and all other style-string side effects are not modelled.
- Slide width is a positive integer constant in the scroll carousel. `offsetWidth` and `getBoundingClientRect` measurement, fractional pixels and zero-width (hidden) slides are not modelled.
- ScrollCarousel.InfiniteCarousel.Click: `scrollTo` is an immediate assignment of the target offset. The browser's clamping to the scrollable range and the intermediate offsets of smooth scrolling are not modelled. Those offsets reach the handler as separate `ScrollTo` and `OnScroll` steps.
- ScrollCarousel.InfiniteCarousel.DotClick: the same applies to the dot's `scrollTo`.
- ScrollCarousel.InfiniteCarousel.Setup: the dots container is assumed to hold no `.dot` elements before setup. `cloneNode(true)` is a copy of the slide's value. Deep DOM contents are not modelled.
- ScrollCarousel.ClickDirection: `clientX - rect.left` and `rect.width` are integers. The rounding of `x / width` and of the literal 0.4 to binary floating point is not modelled. It cannot matter for page-sized integer pixels.
- TabDispatch.TargetPanel: only panels carry ids, and the target is a plain identifier. An id on a button, a target that is not a valid CSS identifier, and a missing `data-target` are not modelled. A missing `data-target` becomes the selector "#null".
- TabDispatch.TabContainer.Click: the container that `closest('.tab-container')` or the grandparent resolves to is the class instance. Nested tab containers and elements that carry both family classes are not modelled.
- Several carousels or tab containers on one page share no state. Each is its own object, so each method's `modifies this` keeps it from touching the others.
