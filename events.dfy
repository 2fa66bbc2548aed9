/**
 * The clickable elements of one image gallery and how a click on them
 * reaches the gallery's handlers.
 *
 * A click runs the handler of the element clicked, then bubbles to each
 * enclosing element in turn, until an element whose handler calls
 * `stopPropagation()` has run or the gallery's root is reached.
 */
module Events {

  datatype Option<T> = None | Some(value: T)

  /** The elements of a gallery that carry a click handler, or enclose one that does. */
  datatype Target =
    | MainDisplay              // the inline image frame
    | PrevArrow                // inline "previous" arrow, inside the frame
    | NextArrow                // inline "next" arrow, inside the frame
    | Thumbnail(index: int)    // thumbnail strip, one button per image
    | Dot(index: int)          // slide indicator, one button per image
    | Backdrop                 // full-screen overlay background
    | CloseButton              // close button, inside the backdrop
    | ModalContent             // overlay content box, inside the backdrop
    | ModalPrevArrow           // overlay "previous" arrow, inside the content box
    | ModalNextArrow           // overlay "next" arrow, inside the content box

  /** The gallery's callbacks, as the handlers above invoke them. */
  datatype Handler =
    | NextSlide
    | PrevSlide
    | SelectSlide(index: int)  // `setCurrentIndex(index)`
    | OpenModal(index: int)    // `openModal(index)`
    | CloseModal
    | ModalNext
    | ModalPrev

  /** The nearest enclosing element that matters to a click, if any. */
  function Parent(t: Target): (p: Option<Target>)
    ensures p.Some? ==> Depth(p.value) < Depth(t)
    ensures p.Some? ==> InOverlay(p.value) == InOverlay(t)
    ensures p.Some? ==> OwnHandler(p.value, 0).Some? || p.value == ModalContent
  {
    match t
    case PrevArrow | NextArrow => Some(MainDisplay)
    case CloseButton | ModalContent => Some(Backdrop)
    case ModalPrevArrow | ModalNextArrow => Some(ModalContent)
    case _ => None
  }

  /** Nesting depth below the gallery root; bubbling terminates because it decreases. */
  function Depth(t: Target): nat {
    match t
    case PrevArrow | NextArrow | CloseButton | ModalContent => 1
    case ModalPrevArrow | ModalNextArrow => 2
    case _ => 0
  }

  /** The callback an element's own `onClick` invokes; `shown` is the inline index at render time. */
  function OwnHandler(t: Target, shown: int): (h: Option<Handler>)
    ensures h.None? <==> t == ModalContent
    ensures h.Some? && h.value.OpenModal? ==> t == MainDisplay && h.value.index == shown
    ensures h.Some? && h.value.SelectSlide? ==> (t.Thumbnail? || t.Dot?) && h.value.index == t.index
  {
    match t
    case MainDisplay => Some(OpenModal(shown))
    case PrevArrow => Some(PrevSlide)
    case NextArrow => Some(NextSlide)
    case Thumbnail(k) => Some(SelectSlide(k))
    case Dot(k) => Some(SelectSlide(k))
    case Backdrop | CloseButton => Some(CloseModal)
    case ModalContent => None
    case ModalPrevArrow => Some(ModalPrev)
    case ModalNextArrow => Some(ModalNext)
  }

  /** Whether the element's own `onClick` calls `stopPropagation()`. */
  predicate StopsPropagation(t: Target): (s: bool)
    ensures s ==> Parent(t).Some? && OwnHandler(Parent(t).value, 0).Some?
    ensures s ==> !t.Backdrop? && !t.CloseButton? && !t.MainDisplay?
  {
    t == PrevArrow || t == NextArrow || t == ModalContent
  }

  function HandlerSeq(h: Option<Handler>): seq<Handler> {
    if h.Some? then [h.value] else []
  }

  /** The callbacks one click on `t` runs, in order. */
  function Fired(t: Target, shown: int): (hs: seq<Handler>)
    ensures |hs| <= Depth(t) + 1
    ensures OwnHandler(t, shown).Some? ==> |hs| >= 1 && hs[0] == OwnHandler(t, shown).value
    ensures StopsPropagation(t) ==> |hs| <= 1
    ensures Parent(t).Some? && !StopsPropagation(t) ==> hs[|hs| - |Fired(Parent(t).value, shown)|..] == Fired(Parent(t).value, shown)
    decreases Depth(t)
  {
    HandlerSeq(OwnHandler(t, shown)) +
    if StopsPropagation(t) || Parent(t).None? then [] else Fired(Parent(t).value, shown)
  }

  /** Some callback in `hs` opens the overlay. */
  predicate Opens(hs: seq<Handler>) {
    exists j :: 0 <= j < |hs| && hs[j].OpenModal?
  }

  /** Some callback in `hs` closes the overlay. */
  predicate Closes(hs: seq<Handler>) {
    exists j :: 0 <= j < |hs| && hs[j] == CloseModal
  }

  /** The overlay and what it encloses. */
  predicate InOverlay(t: Target) {
    t == Backdrop || t == CloseButton || t == ModalContent || t == ModalPrevArrow || t == ModalNextArrow
  }

  /**
   * Whether `t` is in the document for a gallery of `n` images: the arrows
   * only when there is more than one image, one thumbnail and one dot per
   * image, the overlay only while it is open.
   */
  predicate Rendered(t: Target, n: int, open: bool): (r: bool)
    ensures r && InOverlay(t) ==> open
    ensures r && (t.Thumbnail? || t.Dot?) ==> 0 <= t.index < n
    ensures r && (t.PrevArrow? || t.NextArrow? || t.ModalPrevArrow? || t.ModalNextArrow?) ==> n > 1
  {
    match t
    case MainDisplay => true
    case PrevArrow | NextArrow => n > 1
    case Thumbnail(k) => 0 <= k < n
    case Dot(k) => 0 <= k < n
    case Backdrop | CloseButton | ModalContent => open
    case ModalPrevArrow | ModalNextArrow => open && n > 1
  }

  /**
   * Whether the element is a `<button>`, so that it takes keyboard focus.
   * The frame, the backdrop and the content box are `div`s. Every button has
   * a callback of its own, and none of them opens the overlay.
   */
  predicate IsButton(t: Target): (b: bool)
    ensures b ==> OwnHandler(t, 0).Some? && !OwnHandler(t, 0).value.OpenModal?
    ensures !b ==> t == MainDisplay || t == Backdrop || t == ModalContent
  {
    !(t == MainDisplay || t == Backdrop || t == ModalContent)
  }

  /**
   * Whether a pointer can click `t`: it is rendered, and while the overlay is
   * open its fixed full-screen backdrop covers everything outside it.
   */
  predicate Hittable(t: Target, n: int, open: bool): (h: bool)
    ensures h ==> Rendered(t, n, open)
    ensures h && open ==> InOverlay(t)
    ensures Rendered(t, n, open) && !open ==> h
  {
    Rendered(t, n, open) && (open ==> InOverlay(t))
  }

  /**
   * Whether a click on `t` can be caused at all: by a pointer, or by Enter or
   * Space on a focused rendered button, which bypasses hit-testing. The
   * backdrop neither traps focus nor makes the page inert.
   */
  predicate Activatable(t: Target, n: int, open: bool): (a: bool)
    ensures a ==> Rendered(t, n, open)
    ensures Hittable(t, n, open) ==> a
    ensures a && !Hittable(t, n, open) ==> open && IsButton(t) && !InOverlay(t)
    // the inline frame is a `div` without `tabIndex`: an open overlay blocks it entirely
    ensures t == MainDisplay && open ==> !a
  {
    Hittable(t, n, open) || (Rendered(t, n, open) && IsButton(t))
  }

  /** A click on the inline frame opens the overlay on the image that frame shows, and does nothing else. */
  lemma MainDisplayOpensAtShown(shown: int)
    ensures Fired(MainDisplay, shown) == [OpenModal(shown)]
  {
  }

  /** The inline arrows stop propagation: they move the strip and never reach the frame's open handler. */
  lemma ArrowsOnlyMoveStrip(shown: int)
    ensures Fired(PrevArrow, shown) == [PrevSlide]
    ensures Fired(NextArrow, shown) == [NextSlide]
  {
  }

  /** The close button's own handler runs, then the click bubbles to the backdrop's, which runs it again. */
  lemma CloseButtonClosesTwice(shown: int)
    ensures Fired(CloseButton, shown) == [CloseModal, CloseModal]
  {
  }

  /** Clicks inside the content box are stopped there and never reach the backdrop. */
  lemma ContentStopsAtContent(shown: int)
    ensures Fired(ModalContent, shown) == []
    ensures Fired(ModalPrevArrow, shown) == [ModalPrev]
    ensures Fired(ModalNextArrow, shown) == [ModalNext]
  {
  }

  /** Exactly the clicks on the inline frame open the overlay. */
  lemma OpensIffMainDisplay(t: Target, shown: int)
    ensures Opens(Fired(t, shown)) <==> t == MainDisplay
  {
    if t == MainDisplay {
      assert Fired(t, shown)[0].OpenModal?;
    }
  }

  /** Exactly the clicks on the backdrop and on the close button close the overlay. */
  lemma ClosesIffBackdropOrButton(t: Target, shown: int)
    ensures Closes(Fired(t, shown)) <==> t == Backdrop || t == CloseButton
  {
    if t == Backdrop || t == CloseButton {
      assert Fired(t, shown)[0] == CloseModal;
    }
  }

  /** A selection handler only ever carries an index the gallery rendered a button for. */
  lemma SelectionsInRange(t: Target, n: int, open: bool, shown: int, j: int)
    requires Rendered(t, n, open) && 0 <= j < |Fired(t, shown)| && Fired(t, shown)[j].SelectSlide?
    ensures 0 <= Fired(t, shown)[j].index < n
  {
  }
}
