/**
 * The page: one gallery per product, all sharing the document body.
 *
 * The body's scroll lock has no owner: any gallery's close clears it. It
 * still follows the overlays, because an open overlay's fixed full-screen
 * backdrop covers every other gallery's inline frame, the only element that
 * opens an overlay. The keyboard can still reach the covered buttons, but
 * none of them opens or closes an overlay.
 */
module Home {
  import opened Events
  import opened Gallery

  /** The image lists of the three products, in page order: 5, 4 and 4 images. */
  const ProductImages: seq<seq<string>> := [
    ["/skillden/skillden-skilltree.png", "/skillden/skillden-stats.png",
     "/skillden/skillden-tree-complete.png", "/skillden/skillden-quests.png",
     "/skillden/skillden-ai.png"],
    ["/proofbase/proofbase-cv-preview.png", "/proofbase/proofbase-tracker.png",
     "/proofbase/proofbase-referrals.png", "/proofbase/proofbase-analytics.png"],
    ["/studentvault/studentvault-studying-mockup.png", "/studentvault/studentvault-search-mockup.png",
     "/studentvault/studentvault-analytics-mockup.png",
     "/studentvault/studentvault-progress-tracking-mockup.png"]
  ]

  /** Every product has at least one image, so no gallery divides by zero. */
  lemma ProductsHaveImages()
    ensures |ProductImages| == 3
    ensures forall i :: 0 <= i < |ProductImages| ==> 4 <= |ProductImages[i]| <= 5
  {
  }

  /** Rendering the page with its three products. */
  method MountPage() returns (home: Home)
    ensures home.Valid() && fresh(home) && |home.galleries| == 3 && !home.page.ScrollLocked()
    ensures forall i :: 0 <= i < 3 ==> home.galleries[i].images == ProductImages[i]
  {
    ProductsHaveImages();
    home := new Home(ProductImages);
  }

  class Home {
    const page: Page
    const galleries: seq<ImageGallery>

    /** Some gallery's overlay is open. */
    ghost predicate AnyOpen()
      reads galleries
    {
      exists i :: 0 <= i < |galleries| && galleries[i].modalOpen
    }

    ghost predicate Valid()
      reads this, page, galleries
    {
      && (forall i :: 0 <= i < |galleries| ==> galleries[i].page == page && galleries[i].Valid())
      && (forall i, j :: 0 <= i < j < |galleries| ==> galleries[i] != galleries[j])
      // at most one overlay is open
      && (forall i, j ::
            0 <= i < |galleries| && 0 <= j < |galleries| && galleries[i].modalOpen && galleries[j].modalOpen
            ==> i == j)
      // the body is locked exactly while that overlay is open
      && (page.ScrollLocked() <==> AnyOpen())
    }

    /**
     * `t` in gallery `g` can be activated: by a pointer when no other
     * gallery's overlay covers it, or by the keyboard when it is a button.
     * The inline frame, the only opener, can be clicked only while no overlay
     * on the page is open; any other non-button only in the open gallery.
     */
    ghost predicate Clickable(g: int, t: Target): (c: bool)
      reads this, galleries
      ensures c ==> 0 <= g < |galleries| && Activatable(t, |galleries[g].images|, galleries[g].modalOpen)
      ensures c && t == MainDisplay ==> !AnyOpen()
      ensures c && !IsButton(t) && AnyOpen() ==> galleries[g].modalOpen
    {
      && 0 <= g < |galleries|
      && Activatable(t, |galleries[g].images|, galleries[g].modalOpen)
      && (IsButton(t) || forall j :: 0 <= j < |galleries| && galleries[j].modalOpen ==> j == g)
    }

    /** Mounting the page: one closed gallery per product, all on one untouched body. */
    constructor (products: seq<seq<string>>)
      requires forall i :: 0 <= i < |products| ==> |products[i]| >= 1
      ensures Valid() && fresh(page) && !page.ScrollLocked()
      ensures |galleries| == |products|
      ensures forall i :: 0 <= i < |galleries| ==>
        fresh(galleries[i]) && galleries[i].images == products[i] &&
        galleries[i].currentIndex == 0 && galleries[i].modalIndex == 0 && !galleries[i].modalOpen
    {
      var body := new Page();
      var gs: seq<ImageGallery> := [];
      for k := 0 to |products|
        invariant |gs| == k && fresh(body) && body.overflow == Empty
        invariant forall i :: 0 <= i < k ==>
          fresh(gs[i]) && gs[i].page == body && gs[i].Valid() && gs[i].images == products[i] &&
          gs[i].currentIndex == 0 && gs[i].modalIndex == 0 && !gs[i].modalOpen
        invariant forall i, j :: 0 <= i < j < k ==> gs[i] != gs[j]
      {
        var g := new ImageGallery(products[k], body);
        gs := gs + [g];
      }
      page := body;
      galleries := gs;
    }

    /** One click on `t` in gallery `g`, by pointer or keyboard: that gallery handles it, the others do not change. */
    method Click(g: int, t: Target)
      requires Valid() && Clickable(g, t)
      modifies galleries[g], page
      ensures Valid()
      ensures galleries[g].ViewOf() == ClickView(old(galleries[g].ViewOf()), |galleries[g].images|, t)
      ensures forall j :: 0 <= j < |galleries| && j != g ==> unchanged(galleries[j])
    {
      var gallery := galleries[g];
      ghost var opener := -1;
      if AnyOpen() {
        opener :| 0 <= opener < |galleries| && galleries[opener].modalOpen;
      }
      ClickEffect(gallery.ViewOf(), |gallery.images|, t);
      gallery.Click(t);
      forall j | 0 <= j < |galleries| && j != g
        ensures unchanged(galleries[j])
      {
        assert galleries[j] != gallery;
      }
      if page.ScrollLocked() && !galleries[g].modalOpen {
        // the lock was already set, by an overlay that is still open
        assert 0 <= opener < |galleries| && opener != g;
        assert galleries[opener].modalOpen;
      }
    }
  }
}
