/**
 * The home page's image carousel: how many slides fit the window, the wrap-around index arithmetic
 * of the next and previous buttons (the auto-scroll timer presses next), and the redraw that
 * shifts the track and marks the dot of the current slide.
 */
module Carousel {

  /** `getVisibleSlides`: one slide below 600 pixels of window width, two below 900, otherwise three. */
  function VisibleSlides(width: int): (n: int)
    ensures 1 <= n <= 3
    ensures n == 1 <==> width < 600
    ensures n == 3 <==> 900 <= width
  {
    if width < 600 then 1
    else if width < 900 then 2
    else 3
  }

  /** A wider window never shows fewer slides. */
  lemma VisibleSlidesMonotone(narrow: int, wide: int)
    requires narrow <= wide
    ensures VisibleSlides(narrow) <= VisibleSlides(wide)
  {
  }

  /** The index the next button moves to: one further, or back to the first slide at the end. */
  function NextIndex(current: int, total: int, visible: int): (r: int)
    ensures r == 0 || r == current + 1 <= total - visible
    ensures r == 0 <==> total - visible <= current || current == -1
  {
    if current < total - visible then current + 1 else 0
  }

  /**
   * The index the previous button moves to: one back, or from the first slide to the last index at
   * which a full window of slides is still shown (`total - visible`, which is negative when fewer
   * slides than the window holds exist).
   */
  function PrevIndex(current: int, total: int, visible: int): (r: int)
    ensures current > 0 ==> r == current - 1
    ensures current <= 0 ==> r == total - visible
  {
    if current > 0 then current - 1 else total - visible
  }

  /** The indices at which the window is full of slides: from the first to `total - visible`. */
  predicate InWindow(i: int, total: int, visible: int) {
    0 <= i <= total - visible
  }

  /** Both buttons keep the index inside the window when it starts there. */
  lemma StepsStayInWindow(current: int, total: int, visible: int)
    requires InWindow(current, total, visible)
    ensures InWindow(NextIndex(current, total, visible), total, visible)
    ensures InWindow(PrevIndex(current, total, visible), total, visible)
  {
  }

  /** Inside the window, previous undoes next and next undoes previous. */
  lemma PrevNextInverse(current: int, total: int, visible: int)
    requires InWindow(current, total, visible)
    ensures PrevIndex(NextIndex(current, total, visible), total, visible) == current
    ensures NextIndex(PrevIndex(current, total, visible), total, visible) == current
  {
  }

  /** With fewer slides than the window holds, previous from the first slide leaves the index negative. */
  lemma PrevBelowZero(total: int, visible: int)
    requires 0 <= total < visible
    ensures PrevIndex(0, total, visible) < 0
    ensures !InWindow(0, total, visible)
  {
  }

  /** The index after `k` presses of next (or `k` ticks of the auto-scroll timer). */
  function NextTimes(current: int, total: int, visible: int, k: nat): int
    decreases k
  {
    if k == 0 then current else NextIndex(NextTimes(current, total, visible, k - 1), total, visible)
  }

  /** `a` presses and then `b` more are `a + b` presses. */
  lemma {:induction false} NextTimesAdd(current: int, total: int, visible: int, a: nat, b: nat)
    ensures NextTimes(NextTimes(current, total, visible, a), total, visible, b)
         == NextTimes(current, total, visible, a + b)
    decreases b
  {
    if b > 0 {
      NextTimesAdd(current, total, visible, a, b - 1);
    }
  }

  /** Inside the window, next presses count up one by one until its last index. */
  lemma {:induction false} NextTimesCounts(current: int, total: int, visible: int, k: nat)
    requires 0 <= current && current + k <= total - visible
    ensures NextTimes(current, total, visible, k) == current + k
    decreases k
  {
    if k > 0 {
      NextTimesCounts(current, total, visible, k - 1);
    }
  }

  /**
   * Auto-scroll visits every index of the window and comes back: `total - visible + 1` presses of
   * next from any index in the window return to it.
   */
  lemma NextCycle(current: int, total: int, visible: int)
    requires InWindow(current, total, visible)
    ensures NextTimes(current, total, visible, total - visible + 1) == current
  {
    var last := total - visible;
    NextTimesCounts(current, total, visible, last - current);
    NextTimesAdd(current, total, visible, last - current, 1);
    assert NextTimes(current, total, visible, last - current + 1) == 0;
    NextTimesCounts(0, total, visible, current);
    NextTimesAdd(current, total, visible, last - current + 1, current);
  }

  /** The dots' `active` flags when slide `current` is shown: exactly the dot at that position. */
  function ActiveDots(count: nat, current: int): (dots: seq<bool>)
    ensures |dots| == count
    ensures forall i :: 0 <= i < count ==> (dots[i] <==> i == current)
  {
    seq(count, i => i == current)
  }

  /** A negative index or one past the dots leaves no dot active. */
  lemma NoActiveDotOutside(count: nat, current: int)
    requires current < 0 || count <= current
    ensures forall i :: 0 <= i < count ==> !ActiveDots(count, current)[i]
  {
  }

  class Gallery {
    /** `currentIndex`. */
    var currentIndex: int
    /** How many `.gallery-item` slides the page has. */
    const slideCount: nat
    /** Whether the page has a `.carousel-track`. */
    const hasTrack: bool
    /** The first slide's width plus its 16 pixels of margin, as laid out for the current window. */
    var slideWidth: nat
    /** `window.innerWidth`. */
    var width: int
    /** The `active` flag of each dot button, one dot per slide. */
    var dots: seq<bool>
    /**
     * How far the track is translated to the left, in pixels. A negative index (see `PrevBelowZero`)
     * gives a negative shift here; the page would write `translateX(--<n>px)`, which is not valid CSS,
     * so on the page the track keeps its last position.
     */
    var shift: int

    /** The carousel draws only when there is a slide and a track. */
    predicate Drawable()
      reads this
    {
      slideCount > 0 && hasTrack
    }

    /** What `updateCarousel` leaves on a drawable page: the track and the dots follow the index. */
    predicate Drawn()
      reads this
    {
      shift == currentIndex * slideWidth && dots == ActiveDots(slideCount, currentIndex)
    }

    ghost predicate Valid()
      reads this
    {
      |dots| == slideCount && (Drawable() ==> Drawn())
    }

    /**
     * The page once loaded: one inactive dot per slide, the index at the first slide, then the first
     * redraw.
     */
    constructor (slides: nat, track: bool, itemWidth: nat, windowWidth: int)
      ensures slideCount == slides && hasTrack == track && slideWidth == itemWidth + 16 && width == windowWidth
      ensures currentIndex == 0
      ensures Valid()
      ensures !Drawable() ==> dots == seq(slides, i => false) && shift == 0
    {
      slideCount, hasTrack, slideWidth := slides, track, itemWidth + 16;
      width, currentIndex := windowWidth, 0;
      dots, shift := seq(slides, i => false), 0;
      new;
      Update();
    }

    /**
     * `updateCarousel`: on a page without slides or without a track nothing changes; otherwise the
     * track is shifted by the index times the slide width and, dot by dot, the dot at the index is
     * made active and every other one inactive.
     */
    method Update()
      requires |dots| == slideCount
      modifies this
      ensures currentIndex == old(currentIndex) && width == old(width) && slideWidth == old(slideWidth)
      ensures Valid()
      ensures !Drawable() ==> dots == old(dots) && shift == old(shift)
      ensures Drawable() ==> Drawn()
    {
      if slideCount == 0 || !hasTrack {
        return;
      }
      shift := currentIndex * slideWidth;
      var flags := dots;
      var i := 0;
      while i < |flags|
        invariant 0 <= i <= |flags| == slideCount
        invariant forall j :: 0 <= j < i ==> (flags[j] <==> j == currentIndex)
      {
        flags := flags[i := i == currentIndex];
        i := i + 1;
      }
      dots := flags;
    }

    /** `nextSlide`, the next button and each auto-scroll tick. */
    method NextSlide()
      requires Valid()
      modifies this
      ensures currentIndex == NextIndex(old(currentIndex), slideCount, VisibleSlides(width))
      ensures width == old(width) && slideWidth == old(slideWidth) && Valid()
      ensures !Drawable() ==> dots == old(dots) && shift == old(shift)
    {
      currentIndex := NextIndex(currentIndex, slideCount, VisibleSlides(width));
      Update();
    }

    /** `prevSlide`, the previous button. */
    method PrevSlide()
      requires Valid()
      modifies this
      ensures currentIndex == PrevIndex(old(currentIndex), slideCount, VisibleSlides(width))
      ensures width == old(width) && slideWidth == old(slideWidth) && Valid()
      ensures !Drawable() ==> dots == old(dots) && shift == old(shift)
    {
      currentIndex := PrevIndex(currentIndex, slideCount, VisibleSlides(width));
      Update();
    }

    /** A click on dot `k`: that slide becomes the current one. */
    method DotClick(k: nat)
      requires Valid() && k < |dots|
      modifies this
      ensures currentIndex == k && width == old(width) && slideWidth == old(slideWidth) && Valid()
      ensures Drawable() ==> dots[k] && forall i :: 0 <= i < |dots| && i != k ==> !dots[i]
      ensures !Drawable() ==> dots == old(dots) && shift == old(shift)
    {
      currentIndex := k;
      Update();
    }

    /**
     * The window's resize event: the new width and the slide width laid out for it, then a redraw at
     * the same index.
     */
    method Resize(windowWidth: int, itemWidth: nat)
      requires Valid()
      modifies this
      ensures width == windowWidth && slideWidth == itemWidth + 16 && currentIndex == old(currentIndex)
      ensures Valid()
      ensures !Drawable() ==> dots == old(dots) && shift == old(shift)
    {
      width, slideWidth := windowWidth, itemWidth + 16;
      Update();
    }
  }
}
