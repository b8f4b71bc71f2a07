/**
 * The state of the gallery page component: the fetched images, the search
 * term, the current page and the loading flag, updated by the fetch's
 * completion and by the search box and pagination handlers.  The page size
 * is fixed per component (16 in app/page.js, 12 in components/Layout.js).
 * While loading, the components render only a placeholder
 * (app/page.js:87, components/Layout.js:53), so the handlers below require
 * `!loading`.
 */
module GalleryState {
  import opened Wrappers
  import opened Gallery

  class GalleryView {
    const itemsPerPage: nat
    var images: seq<Image>
    var search: string
    var page: int
    var loading: bool

    /**
     * The page is 0 (reached by Next on an empty list, and only while the
     * filtered list is empty) or a page from 1 to the page count (page 1 also
     * when there are no pages).  While loading, no image is present and the
     * page is 1: the search box and the page buttons are not rendered then.
     */
    ghost predicate Valid()
      reads this
    {
      itemsPerPage > 0 &&
      0 <= page <= Max(1, TotalPages(|FilterImages(images, search)|, itemsPerPage)) &&
      (page == 0 ==> FilterImages(images, search) == []) &&
      (loading ==> images == [] && page == 1)
    }

    /** `filteredImages` */
    function Filtered(): seq<Image>
      reads this
    {
      FilterImages(images, search)
    }

    /** `totalPages` */
    function PageCount(): nat
      reads this
      requires itemsPerPage > 0
    {
      TotalPages(|Filtered()|, itemsPerPage)
    }

    /** `displayImages`: the current page's slice of the filtered list. */
    function Display(): (r: seq<Image>)
      reads this
      requires Valid()
      ensures |r| <= itemsPerPage
      ensures page >= 1 ==>
        r == Filtered()[Min((page - 1) * itemsPerPage, |Filtered()|)..Min(page * itemsPerPage, |Filtered()|)]
      ensures page == 0 || Filtered() == [] ==> r == []
    {
      if page >= 1 then
        DisplayPage(Filtered(), page, itemsPerPage);
        DisplayImages(Filtered(), page, itemsPerPage)
      else
        DisplayOutsidePages(Filtered(), page, itemsPerPage);
        DisplayImages(Filtered(), page, itemsPerPage)
    }

    /** The component as first rendered: no images, empty search, page 1, loading. */
    constructor (itemsPerPage: nat)
      requires itemsPerPage > 0
      ensures Valid()
      ensures this.itemsPerPage == itemsPerPage
      ensures images == [] && search == "" && page == 1 && loading
    {
      this.itemsPerPage := itemsPerPage;
      images, search, page, loading := [], "", 1, true;
    }

    /**
     * The fetch settles: on success its list becomes `images`; on failure the
     * list stays empty.  Either way loading ends.
     */
    method FinishLoading(fetched: Option<seq<Image>>)
      requires Valid() && loading
      modifies this
      ensures Valid() && !loading
      ensures images == if fetched.Some? then fetched.value else []
      ensures search == old(search) && page == old(page) == 1
    {
      if fetched.Some? {
        images := fetched.value;
      }
      loading := false;
    }

    /** Typing in the search box: new term, back to page 1. */
    method SetSearch(term: string)
      requires Valid() && !loading
      modifies this`search, this`page
      ensures Valid()
      ensures search == term && page == 1
      ensures images == old(images) && loading == old(loading)
    {
      search := term;
      page := 1;
    }

    /** The Prev button: never below page 1. */
    method Prev()
      requires Valid() && !loading
      modifies this`page
      ensures Valid()
      ensures page == PrevPage(old(page))
      ensures 1 <= page && (old(page) > 1 ==> page == old(page) - 1)
    {
      PageClampsInRange(page, PageCount());
      page := PrevPage(page);
    }

    /** The Next button: never past the page count; page 0 when there are no pages. */
    method Next()
      requires Valid() && !loading
      modifies this`page
      ensures Valid()
      ensures page == NextPage(old(page), PageCount())
      ensures 0 <= page <= PageCount()
      ensures page == 0 <==> Filtered() == []
      ensures old(page) < PageCount() ==> page == old(page) + 1
    {
      PageClampsInRange(page, PageCount());
      TotalPagesIsCeil(|Filtered()|, itemsPerPage);
      page := NextPage(page, PageCount());
    }

    /** The numbered button `i + 1`, one for each `i` below the page count. */
    method GoToPage(i: nat)
      requires Valid() && !loading && i < PageCount()
      modifies this`page
      ensures Valid()
      ensures page == i + 1
    {
      page := i + 1;
    }
  }
}
