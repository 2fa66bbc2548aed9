/**
 * The image gallery controller: an inline strip position, an overlay
 * position and an open flag per gallery, and the page-wide scroll lock
 * (`document.body.style.overflow`) that opening and closing the overlay
 * write.
 *
 * `View` and `Step` are the value-level specification of one callback;
 * `ImageGallery` is the stateful component, one method per callback, and
 * `ImageGallery.Click` runs the callbacks a click fires, as event
 * bubbling orders them.
 */
module Gallery {
  import opened Wrap
  import opened Events

  /** The inline `overflow` style of the document body: never set, `"hidden"` or `"unset"`. */
  datatype Overflow = Empty | Hidden | Unset

  /** The document body, shared by every gallery on the page. */
  class Page {
    var overflow: Overflow

    constructor ()
      ensures overflow == Empty
    {
      overflow := Empty;
    }

    /** Background scrolling is suppressed. */
    predicate ScrollLocked()
      reads this
    {
      overflow == Hidden
    }
  }

  /** What one gallery shows, together with the body's overflow style. */
  datatype View = View(current: int, modal: int, open: bool, overflow: Overflow)

  /** Both positions are images of a non-empty list of `n`. */
  predicate ValidView(v: View, n: int) {
    n >= 1 && InRange(v.current, n) && InRange(v.modal, n)
  }

  /** The view a gallery of `n >= 1` images starts in, on a page nobody has locked. */
  function InitialView(n: int): (v: View)
    requires n >= 1
    ensures ValidView(v, n) && v.current == 0 && v.modal == 0 && !v.open && v.overflow != Hidden
  {
    View(0, 0, false, Empty)
  }

  /** The body is locked exactly while the overlay is open. */
  predicate LockMatchesOverlay(v: View) {
    (v.overflow == Hidden) == v.open
  }

  /** The callbacks that carry an index carry one of an image of the list. */
  predicate Admissible(h: Handler, n: int) {
    match h
    case SelectSlide(k) => InRange(k, n)
    case OpenModal(k) => InRange(k, n)
    case _ => true
  }

  predicate AllAdmissible(hs: seq<Handler>, n: int) {
    forall j :: 0 <= j < |hs| ==> Admissible(hs[j], n)
  }

  /** The effect of one callback on the view. */
  function Step(v: View, n: int, h: Handler): (w: View)
    requires ValidView(v, n) && Admissible(h, n)
    ensures ValidView(w, n)
  {
    match h
    case NextSlide => v.(current := Next(v.current, n))
    case PrevSlide => v.(current := Prev(v.current, n))
    case SelectSlide(k) => v.(current := k)
    case OpenModal(k) => v.(modal := k, open := true, overflow := Hidden)
    case CloseModal => v.(open := false, overflow := Unset)
    case ModalNext => v.(modal := Next(v.modal, n))
    case ModalPrev => v.(modal := Prev(v.modal, n))
  }

  /** The callbacks `hs`, run one after another. */
  function Run(v: View, n: int, hs: seq<Handler>): (w: View)
    requires ValidView(v, n) && AllAdmissible(hs, n)
    ensures ValidView(w, n)
    decreases |hs|
  {
    if hs == [] then v else Run(Step(v, n, hs[0]), n, hs[1..])
  }

  /** Every callback a rendered target fires carries an in-range index when `shown` is in range. */
  lemma FiredAdmissible(t: Target, n: int, open: bool, shown: int)
    requires Rendered(t, n, open) && InRange(shown, n)
    ensures AllAdmissible(Fired(t, shown), n)
  {
  }

  /**
   * The view after one click on `t`, by pointer or keyboard; the handlers
   * see the view as it was last rendered.
   */
  function ClickView(v: View, n: int, t: Target): (w: View)
    requires ValidView(v, n) && Activatable(t, n, v.open)
    ensures ValidView(w, n)
  {
    FiredAdmissible(t, n, v.open, v.current);
    Run(v, n, Fired(t, v.current))
  }

  /** A click, written out as the callbacks its target fires. */
  lemma ClickSteps(v: View, n: int, t: Target)
    requires ValidView(v, n) && Activatable(t, n, v.open)
    ensures ClickView(v, n, t) ==
      match t
      case MainDisplay => Step(v, n, OpenModal(v.current))
      case PrevArrow => Step(v, n, PrevSlide)
      case NextArrow => Step(v, n, NextSlide)
      case Thumbnail(k) => Step(v, n, SelectSlide(k))
      case Dot(k) => Step(v, n, SelectSlide(k))
      case Backdrop => Step(v, n, CloseModal)
      case CloseButton => Step(Step(v, n, CloseModal), n, CloseModal)
      case ModalContent => v
      case ModalPrevArrow => Step(v, n, ModalPrev)
      case ModalNextArrow => Step(v, n, ModalNext)
  {
    FiredAdmissible(t, n, v.open, v.current);
    var hs := Fired(t, v.current);
    assert Run(v, n, hs) == ClickView(v, n, t);
    if |hs| >= 1 {
      var w := Step(v, n, hs[0]);
      assert Run(v, n, hs) == Run(w, n, hs[1..]);
      if |hs| == 2 {
        assert Run(w, n, hs[1..]) == Run(Step(w, n, hs[1]), n, hs[2..]);
      }
    }
  }

  /** Inline navigation moves only the inline position; overlay navigation moves only the overlay position. */
  lemma NavigationFrames(v: View, n: int, h: Handler)
    requires ValidView(v, n) && Admissible(h, n)
    ensures h.NextSlide? || h.PrevSlide? || h.SelectSlide? ==> Step(v, n, h).(current := v.current) == v
    ensures h.ModalNext? || h.ModalPrev? ==> Step(v, n, h).(modal := v.modal) == v
    ensures h.SelectSlide? ==> Step(v, n, h).current == h.index
  {
  }

  /** In the overlay and in the inline strip alike, "previous" and "next" undo each other on the whole state. */
  lemma NavigationInverse(v: View, n: int)
    requires ValidView(v, n)
    ensures Step(Step(v, n, ModalNext), n, ModalPrev) == v
    ensures Step(Step(v, n, ModalPrev), n, ModalNext) == v
    ensures Step(Step(v, n, NextSlide), n, PrevSlide) == v
    ensures Step(Step(v, n, PrevSlide), n, NextSlide) == v
  {
    PrevNextInverse(v.modal, n);
    PrevNextInverse(v.current, n);
  }

  /** Closing twice is closing once, and closing leaves both positions where they were. */
  lemma CloseIdempotent(v: View, n: int)
    requires ValidView(v, n)
    ensures Step(Step(v, n, CloseModal), n, CloseModal) == Step(v, n, CloseModal)
    ensures Step(v, n, CloseModal).current == v.current && Step(v, n, CloseModal).modal == v.modal
    ensures !Step(v, n, CloseModal).open && Step(v, n, CloseModal).overflow != Hidden
  {
  }

  /**
   * Opening from the inline frame shows the image the strip shows, whatever
   * the overlay showed when it was last closed.
   */
  lemma {:induction false} ReopenSeedsFromStrip(v: View, v': View, n: int)
    requires ValidView(v, n) && ValidView(v', n) && !v.open
    requires v' == v.(modal := v'.modal)
    ensures ClickView(v, n, MainDisplay) == ClickView(v', n, MainDisplay)
    ensures ClickView(v, n, MainDisplay).modal == v.current
    ensures ClickView(v, n, MainDisplay).current == v.current
    ensures ClickView(v, n, MainDisplay).open && ClickView(v, n, MainDisplay).overflow == Hidden
  {
    ClickSteps(v, n, MainDisplay);
    ClickSteps(v', n, MainDisplay);
  }

  /**
   * What one click does to the open flag and the body style: the inline
   * frame opens and locks, the backdrop and close button close and unlock,
   * every other click leaves both alone.
   */
  lemma {:induction false} ClickEffect(v: View, n: int, t: Target)
    requires ValidView(v, n) && Activatable(t, n, v.open)
    ensures ClickView(v, n, t).open == (t == MainDisplay || (v.open && !(t == Backdrop || t == CloseButton)))
    ensures ClickView(v, n, t).overflow ==
      if t == MainDisplay then Hidden
      else if t == Backdrop || t == CloseButton then Unset
      else v.overflow
    ensures !InOverlay(t) && t != MainDisplay ==> ClickView(v, n, t).modal == v.modal
    ensures InOverlay(t) ==> ClickView(v, n, t).current == v.current
  {
    ClickSteps(v, n, t);
  }

  /**
   * Under an open overlay, Enter on the focused inline "next" arrow still
   * moves the strip; the overlay, its position and the lock stay as they were.
   */
  lemma KeyboardMovesStripUnderOverlay(v: View, n: int)
    requires ValidView(v, n) && v.open && n > 1
    ensures Activatable(NextArrow, n, v.open) && !Hittable(NextArrow, n, v.open)
    ensures ClickView(v, n, NextArrow) == v.(current := Next(v.current, n))
  {
    ClickSteps(v, n, NextArrow);
  }

  /** Clicking keeps the body locked exactly while the overlay is open. */
  lemma ClickKeepsLockMatched(v: View, n: int, t: Target)
    requires ValidView(v, n) && Activatable(t, n, v.open) && LockMatchesOverlay(v)
    ensures LockMatchesOverlay(ClickView(v, n, t))
  {
    ClickEffect(v, n, t);
  }

  /**
   * Five images: open on the first, step the overlay forward three times,
   * close with the button, step the strip forward twice, open again. The
   * overlay opens on image 2, where the strip is, not on image 3, where it
   * was closed.
   */
  lemma ReopenScenario()
    ensures
      var v0 := InitialView(5);
      var v1 := ClickView(v0, 5, MainDisplay);
      var v2 := ClickView(v1, 5, ModalNextArrow);
      var v3 := ClickView(v2, 5, ModalNextArrow);
      var v4 := ClickView(v3, 5, ModalNextArrow);
      var v5 := ClickView(v4, 5, CloseButton);
      var v6 := ClickView(v5, 5, NextArrow);
      var v7 := ClickView(v6, 5, NextArrow);
      var v8 := ClickView(v7, 5, MainDisplay);
      v4.modal == 3 && v5.modal == 3 && !v5.open && v7.current == 2 &&
      v8.open && v8.modal == 2 && v8.current == 2
  {
  }

  /**
   * One gallery. `images` is fixed for its lifetime; the three state cells
   * are overwritten by the callbacks; `page` is the body all galleries share.
   */
  class ImageGallery {
    const images: seq<string>
    const page: Page
    var currentIndex: int
    var modalOpen: bool
    var modalIndex: int

    ghost predicate Valid()
      reads this
    {
      |images| >= 1 && InRange(currentIndex, |images|) && InRange(modalIndex, |images|)
    }

    /** The gallery's state as a value, with the body style it shares. */
    function ViewOf(): View
      reads this, page
    {
      View(currentIndex, modalIndex, modalOpen, page.overflow)
    }

    /** Mounting: both positions at the first image, overlay closed; the body is not touched. */
    constructor (images: seq<string>, page: Page)
      requires |images| >= 1
      ensures Valid() && this.images == images && this.page == page
      ensures ViewOf() == InitialView(|images|).(overflow := page.overflow)
    {
      this.images := images;
      this.page := page;
      currentIndex := 0;
      modalOpen := false;
      modalIndex := 0;
    }

    method NextSlide()
      requires Valid()
      modifies this
      ensures Valid()
      ensures currentIndex == Next(old(currentIndex), |images|)
      ensures modalIndex == old(modalIndex) && modalOpen == old(modalOpen) && unchanged(page)
    {
      currentIndex := (currentIndex + 1) % |images|;
    }

    method PrevSlide()
      requires Valid()
      modifies this
      ensures Valid()
      ensures currentIndex == Prev(old(currentIndex), |images|)
      ensures modalIndex == old(modalIndex) && modalOpen == old(modalOpen) && unchanged(page)
    {
      currentIndex := (currentIndex - 1 + |images|) % |images|;
    }

    /** A thumbnail or dot: `index` comes from mapping over `images`, so it is in range. */
    method SelectSlide(index: int)
      requires Valid() && InRange(index, |images|)
      modifies this
      ensures Valid()
      ensures currentIndex == index
      ensures modalIndex == old(modalIndex) && modalOpen == old(modalOpen) && unchanged(page)
    {
      currentIndex := index;
    }

    method OpenModal(index: int)
      requires Valid() && InRange(index, |images|)
      modifies this, page
      ensures Valid()
      ensures modalIndex == index && modalOpen && page.ScrollLocked()
      ensures currentIndex == old(currentIndex)
    {
      modalIndex := index;
      modalOpen := true;
      page.overflow := Hidden;
    }

    /** Clears the lock whoever set it: the body keeps no record of which gallery locked it. */
    method CloseModal()
      requires Valid()
      modifies this, page
      ensures Valid()
      ensures !modalOpen && page.overflow == Unset
      ensures currentIndex == old(currentIndex) && modalIndex == old(modalIndex)
    {
      modalOpen := false;
      page.overflow := Unset;
    }

    method ModalNext()
      requires Valid()
      modifies this
      ensures Valid()
      ensures modalIndex == Next(old(modalIndex), |images|)
      ensures currentIndex == old(currentIndex) && modalOpen == old(modalOpen) && unchanged(page)
    {
      modalIndex := (modalIndex + 1) % |images|;
    }

    method ModalPrev()
      requires Valid()
      modifies this
      ensures Valid()
      ensures modalIndex == Prev(old(modalIndex), |images|)
      ensures currentIndex == old(currentIndex) && modalOpen == old(modalOpen) && unchanged(page)
    {
      modalIndex := (modalIndex - 1 + |images|) % |images|;
    }

    /** The overlay counter shows `modalIndex + 1` of `|images|`. */
    function Counter(): (shown: int)
      reads this
      requires Valid() && modalOpen
      ensures 1 <= shown <= |images|
      ensures shown - 1 == modalIndex
    {
      modalIndex + 1
    }

    /** One click on `t`, by pointer or keyboard: the callbacks it fires, in bubbling order. */
    method Click(t: Target)
      requires Valid() && Activatable(t, |images|, modalOpen)
      modifies this, page
      ensures Valid()
      ensures ViewOf() == ClickView(old(ViewOf()), |images|, t)
    {
      ClickSteps(ViewOf(), |images|, t);
      match t {
        case MainDisplay => OpenModal(currentIndex);
        case PrevArrow => PrevSlide();
        case NextArrow => NextSlide();
        case Thumbnail(k) => SelectSlide(k);
        case Dot(k) => SelectSlide(k);
        case Backdrop => CloseModal();
        case CloseButton =>
          CloseModal();
          CloseModal();
        case ModalContent =>
        case ModalPrevArrow => ModalPrev();
        case ModalNextArrow => ModalNext();
      }
    }
  }

  /**
   * Two galleries on one page: if the second opened while the first was
   * open, closing the second unlocks the body under the first's overlay.
   * A gallery on its own cannot prevent this; on the page the first
   * overlay's backdrop covers the second gallery, which rules it out.
   */
  method SharedLockWithoutOwner(page: Page, images: seq<string>)
    returns (first: ImageGallery, second: ImageGallery)
    requires |images| >= 1
    modifies page
    ensures first.modalOpen && !second.modalOpen && !page.ScrollLocked()
  {
    first := new ImageGallery(images, page);
    second := new ImageGallery(images, page);
    ClickEffect(first.ViewOf(), |images|, MainDisplay);
    first.Click(MainDisplay);
    ClickEffect(second.ViewOf(), |images|, MainDisplay);
    second.Click(MainDisplay);
    ClickEffect(second.ViewOf(), |images|, Backdrop);
    second.Click(Backdrop);
  }
}
