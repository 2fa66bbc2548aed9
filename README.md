# Image gallery controller of jamiewells.dev

This project models the one stateful component of the portfolio site: the
`ImageGallery` carousel and lightbox on the home page. Each product gets a
gallery. The gallery has an inline strip position (`currentIndex`) and an
overlay position (`modalIndex`). It has an overlay open flag (`modalOpen`).
All galleries share the document body's `overflow` style, which locks
background scrolling while an overlay is open.

Modules, following the component's structure:

- `Wrap` (`wrap.dfy`): the wrap-around updaters `(prev + 1) % n` and
  `(prev - 1 + n) % n`. It also defines repeated presses (`Advance`,
  `Retreat`) and proves their cycle properties.
- `Events` (`events.dfy`): the clickable elements of a gallery and the
  callbacks their `onClick` props invoke. It models which elements are
  rendered and how a click bubbles up until an element calls
  `stopPropagation()`. `Fired(t, shown)` lists the callbacks one click
  runs, in order.
- `Gallery` (`gallery.dfy`): `View`, the gallery's state as a value, plus
  `Step` (one callback) and `ClickView` (one click) as its specification.
  `Page` is the shared document body. `ImageGallery` is a class with the
  three state cells as fields and one method per callback.
  `ImageGallery.Click` runs what a click fires, and is proved equal to
  `ClickView`.
- `Home` (`home.dfy`): the page with one gallery per product, all on one
  `Page`. Its invariant says at most one overlay is open, and the body is
  locked exactly while one is.

Each callback runs as one atomic step. React batches the state setters of
one event and applies them in order after the handlers. Functional updaters
compose under that, and `openModal(currentIndex)` reads the index captured
at render time. So a click is modelled as the fired callbacks applied in
sequence to the last rendered state, with `shown` carrying the rendered
`currentIndex`.

Three behaviours of the code shape the model. First, only the inline strip
has a direct jump (thumbnails and dots); the overlay has only next and
previous. Second, the scroll lock has no owner: `closeModal` always writes
`"unset"`. `SharedLockWithoutOwner` shows what that allows, and
`Home.Home.Valid` shows why pointer and keyboard input never get the page
there. Third, the close
button sits inside the backdrop and does not stop propagation, so one click
on it runs `closeModal` twice. `CloseIdempotent` shows this is harmless.

The model takes clicks from a pointer or from the keyboard; other sources
of clicks are listed under "Left out". A pointer click is
hit-tested, so while an overlay is open it can reach only that overlay.
Enter or Space on a focused `<button>` fires its click without hit-testing,
and the backdrop does not trap focus. So the covered inline arrows,
thumbnails and dots of every gallery stay reachable under an open overlay
(`Events.Activatable`, `Gallery.KeyboardMovesStripUnderOverlay`). The page
invariant survives this, because the only element that opens an overlay,
the inline frame, is a `div` without `tabIndex`.

## Model

| member | source | states |
|---|---|---|
| `Wrap.Next` | app/page.tsx:103-105 | the next index is in `[0, n)`; it is `i + 1`, except that it wraps from `n - 1` to 0 |
| `Wrap.Prev` | app/page.tsx:107-109 | the previous index is in `[0, n)`; it is `i - 1`, except that it wraps from 0 to `n - 1` |
| `Wrap.PrevNextInverse` | app/page.tsx:103-109 | previous undoes next and next undoes previous, for every index |
| `Wrap.SingleImageFixed` | app/page.tsx:103-109 | with one image, next and previous are no-ops |
| `Wrap.AdvanceSplit` | app/page.tsx:103-105 | `a + b` presses of next equal `a` presses followed by `b` presses |
| `Wrap.AdvanceWithinCycle` | app/page.tsx:103-105 | `k < n` presses of next from `i` land on `i + k`, or on `i + k - n` once past the end |
| `Wrap.RetreatWithinCycle` | app/page.tsx:107-109 | `k < n` presses of previous from `i` land on `i - k`, or on `i - k + n` once past the start |
| `Wrap.AdvanceCycle` | app/page.tsx:103-105 | `n` presses of next return to the starting image |
| `Wrap.RetreatCycle` | app/page.tsx:107-109 | `n` presses of previous return to the starting image |
| `Wrap.AdvancePeriodic` | app/page.tsx:103-105 | adding a whole cycle of `n` presses of next changes nothing |
| `Wrap.RetreatUndoesAdvance` | app/page.tsx:103-109 | `k` presses of previous undo `k` presses of next, and `k` presses of next undo `k` presses of previous, for every `k` |
| `Wrap.FiveImageScenario` | app/page.tsx:45-51 | with five images, next from 0 visits 1, 2, 3, 4, 0, and previous from 0 lands on 4 |
| `Events.Parent` | app/page.tsx:135-346 | bubbling goes from the arrows to the inline frame (:135, :166, :188), from the close button and content box to the backdrop (:263, :271, :292), and from the overlay arrows to the content box (:292, :327, :346); it never leaves or enters the overlay, and every parent has a handler or is the content box |
| `Events.OwnHandler` | app/page.tsx:137-347 | the `onClick` props at :137, :167-169, :189-191, :219, :247, :268, :272, :298, :328 and :347; only the content box has no callback, only the frame opens (with the shown index), a selection carries its own button's index |
| `Events.StopsPropagation` | app/page.tsx:168-298 | the inline arrows (:168, :190) and the content box (:298) stop propagation; each of them has an enclosing handler it shields, and none of the frame, backdrop or close button stops |
| `Events.Fired` | app/page.tsx:135-375 | a click runs its own element's callback first, a stopping element runs at most that one, a non-stopping one ends with everything its parent fires, and no click runs more callbacks than its depth allows |
| `Events.Rendered` | app/page.tsx:164-325 | the arrows exist only for more than one image (:164, :325), one thumbnail and dot per image (:216, :244), the overlay only while open (:262) |
| `Events.Hittable` | app/page.tsx:263-267 | a pointer reaches a rendered element; while the overlay is open its fixed `inset-0 z-50` backdrop (:267) leaves only overlay elements reachable; with it closed every rendered element is |
| `Events.Activatable` | app/page.tsx:135-347 | an element can be activated only if rendered; every pointer-reachable element can be; the extra ones are buttons under an open overlay, reached by keyboard; the inline frame `div` cannot be activated under an open overlay |
| `Events.IsButton` | app/page.tsx:135-346 | the arrows, thumbnails, dots, close button and overlay arrows are `<button>`s (:166, :188, :217, :245, :271, :327, :346); the frame, backdrop and content box are `div`s (:135, :263, :292); every button has its own callback and none opens the overlay |
| `Events.MainDisplayOpensAtShown` | app/page.tsx:135-138 | a click on the inline frame fires exactly `openModal` with the displayed inline index |
| `Events.ArrowsOnlyMoveStrip` | app/page.tsx:164-191 | the inline arrows fire only prev/next: stopping propagation keeps the click from reaching the frame's `openModal` |
| `Events.CloseButtonClosesTwice` | app/page.tsx:263-273 | a close-button click runs `closeModal` twice: once itself, once on the backdrop |
| `Events.ContentStopsAtContent` | app/page.tsx:292-366 | clicks in the overlay content box reach only its own arrows' callbacks, never the backdrop's `closeModal` |
| `Events.OpensIffMainDisplay` | app/page.tsx:135-375 | of all targets, a click opens the overlay if and only if it is on the inline frame |
| `Events.ClosesIffBackdropOrButton` | app/page.tsx:261-375 | of all targets, a click closes the overlay if and only if it is on the backdrop or the close button |
| `Events.SelectionsInRange` | app/page.tsx:214-257 | an index a thumbnail or dot passes to `setCurrentIndex` is in `[0, n)`, because those buttons come from `images.map` |
| `Gallery.Page.constructor` | app/page.tsx:114-119 | the body starts with no inline `overflow` style, so scrolling is unlocked until `openModal` writes `"hidden"` (:114) or `closeModal` writes `"unset"` (:119) |
| `Gallery.InitialView` | app/page.tsx:99-101 | the initial state: both indices 0 and in range, overlay closed, body not locked |
| `Gallery.Step` | app/page.tsx:103-128 | every callback with an in-range argument keeps both indices in `[0, n)` |
| `Gallery.Run` | app/page.tsx:103-128 | any sequence of such callbacks keeps both indices in `[0, n)` |
| `Gallery.FiredAdmissible` | app/page.tsx:137 | every callback a rendered element fires carries an in-range index |
| `Gallery.ClickView` | app/page.tsx:130-375 | one click on an activatable element, by pointer or keyboard, keeps both indices in `[0, n)` for every gallery size |
| `Gallery.ClickSteps` | app/page.tsx:130-375 | each target's click is the callbacks its handler and its enclosing handlers invoke, in bubbling order |
| `Gallery.NavigationFrames` | app/page.tsx:103-128 | inline callbacks change only `currentIndex`, a jump sets it to exactly `k`, and overlay callbacks change only `modalIndex` |
| `Gallery.NavigationInverse` | app/page.tsx:103-128 | in both views, previous after next and next after previous restore the whole state |
| `Gallery.CloseIdempotent` | app/page.tsx:117-120 | closing twice equals closing once; closing keeps both indices, clears the open flag and unlocks the body |
| `Gallery.ReopenSeedsFromStrip` | app/page.tsx:111-115 | opening from the frame shows the strip's image, whatever `modalIndex` was at the last close, and leaves `currentIndex` alone |
| `Gallery.KeyboardMovesStripUnderOverlay` | app/page.tsx:188-191 | under an open overlay the inline "next" button is not pointer-reachable but is keyboard-activatable, and then moves only `currentIndex` |
| `Gallery.ClickEffect` | app/page.tsx:111-120 | after any pointer or keyboard click: the frame opens and locks, backdrop and close button close and unlock, every other click leaves flag and style alone; inline clicks keep `modalIndex`, overlay clicks keep `currentIndex` |
| `Gallery.ClickKeepsLockMatched` | app/page.tsx:111-120 | if the body is locked exactly while the overlay is open, every pointer or keyboard click keeps it that way |
| `Gallery.ReopenScenario` | app/page.tsx:111-128 | five images: open, overlay next three times, close, strip next twice, open; the overlay reopens on image 2, not 3 |
| `Gallery.ImageGallery.constructor` | app/page.tsx:99-101 | on mount both indices are 0, the overlay is closed and the body is untouched |
| `Gallery.ImageGallery.NextSlide` | app/page.tsx:103-105 | `currentIndex` becomes its wrap-around successor; nothing else changes |
| `Gallery.ImageGallery.PrevSlide` | app/page.tsx:107-109 | `currentIndex` becomes its wrap-around predecessor; nothing else changes |
| `Gallery.ImageGallery.SelectSlide` | app/page.tsx:216-247 | `currentIndex` becomes exactly the selected index, for a thumbnail (:216-219) or a dot (:244-247); nothing else changes |
| `Gallery.ImageGallery.OpenModal` | app/page.tsx:111-115 | `modalIndex` becomes the argument, the overlay opens, the body locks, `currentIndex` is kept |
| `Gallery.ImageGallery.CloseModal` | app/page.tsx:117-120 | the overlay closes and the body style becomes `"unset"`; both indices are kept |
| `Gallery.ImageGallery.ModalNext` | app/page.tsx:122-124 | `modalIndex` becomes its wrap-around successor; nothing else changes |
| `Gallery.ImageGallery.ModalPrev` | app/page.tsx:126-128 | `modalIndex` becomes its wrap-around predecessor; nothing else changes |
| `Gallery.ImageGallery.Counter` | app/page.tsx:369-371 | the overlay counter `modalIndex + 1` is between 1 and the number of images |
| `Gallery.ImageGallery.Click` | app/page.tsx:130-375 | running the handlers of one click leaves the gallery and body in the state `ClickView` specifies |
| `Gallery.SharedLockWithoutOwner` | app/page.tsx:111-120 | with no owner on the lock, two galleries opened one after the other and then the second closed leave the first open with scrolling unlocked |
| `Home.ProductsHaveImages` | app/page.tsx:40-80 | each of the three products has 4 or 5 images, so every gallery has `n >= 1` |
| `Home.MountPage` | app/page.tsx:681-738 | the page mounts one gallery per product, all closed, on an unlocked body |
| `Home.Home.constructor` | app/page.tsx:681-738 | one fresh, closed gallery per image list, all on one fresh body, with the page invariant established |
| `Home.Home.Clickable` | app/page.tsx:135-267 | a click is admitted only on an activatable element; a pointer click on a non-button needs no other gallery's fixed backdrop (:267) over it, so the inline frame `div` (:135) can be clicked only while no overlay on the page is open |
| `Home.Home.Click` | app/page.tsx:261-269 | a pointer click on an uncovered element, or a keyboard activation of any rendered button, keeps the page invariant: at most one overlay open, body locked exactly while one is; other galleries are unchanged |

## Left out

- Rendering: JSX markup, Tailwind classes, SVG icons, `next/image`, and the
  `translateX` offset derived from an index. They draw state and do not
  change it.
- framer-motion variants and `AnimatePresence`. The model also does not let
  the overlay take clicks while its exit animation plays after closing.
- The static copy (`proofStats`, `timelineSteps`, `fitCriteria`, product
  text and URLs). The rest of the `Home` layout and `app/layout.tsx` are
  left out too. The product image lists are kept only as evidence that
  `n >= 1`.
- React's scheduling and batching are not modelled step by step. Each click
  is one atomic step over the last rendered state, as described above.
- The DOM: `document.body.style.overflow` is reduced to its three values
  here (never set, `"hidden"`, `"unset"`). Hit-testing is reduced to
  `Events.Hittable`: a pointer reaches a rendered element unless an open
  overlay's fixed full-screen backdrop covers it. This assumes the
  `fadeInUp` entrance animation of each product block (app/page.tsx:8-11,
  :682-686) has finished. While it runs, the block's transform makes it the
  containing block of the fixed backdrop, which then covers only its own
  product, and the page invariant of `Home.Home.Valid` is not claimed then.
- Galleries with no images. Every product has 4 or 5 images, and `% 0` is
  undefined. So every gallery requires `n >= 1`.
- Focus order and which element holds focus. Keyboard activation is modelled
  as a click on any rendered button, whether or not the overlay covers it.
  Touch taps are hit-tested clicks and need nothing extra.
- Clicks from assistive technology and scripted `element.click()`. A screen
  reader in browse mode can activate another gallery's frame image
  (app/page.tsx:146-153) under an open overlay, since the backdrop
  (:263-268) sets no `aria-modal`, `inert` or `aria-hidden` on the rest of
  the page. Such a click bubbles to that frame's `openModal` (:137) and opens
  a second overlay, after which either close unlocks the body under the
  other, as `Gallery.SharedLockWithoutOwner` shows. `Home.Home.Clickable`
  excludes that input, so `Home.Home.Valid` is claimed for pointer and
  keyboard input only.
