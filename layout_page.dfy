/**
 * components/Layout.js: a second copy of the gallery page, with twelve
 * images per page and a mount check written against `getToken` first.
 */
module LayoutPage {
  import opened Wrappers
  import opened Auth
  import opened Gallery
  import opened GalleryState

  const ItemsPerPage: nat := 12

  /** The component's initial state (components/Layout.js:8-13). */
  method Mount() returns (view: GalleryView)
    ensures fresh(view) && view.Valid() && view.itemsPerPage == ItemsPerPage
    ensures view.images == [] && view.search == "" && view.page == 1 && view.loading
  {
    view := new GalleryView(ItemsPerPage);
  }

  /**
   * The mount check: with no (or an empty) token, or one `isTokenValid`
   * rejects, the token is removed.  A token survives exactly when it was valid.
   */
  method CheckSession(store: CredentialStore, now: int) returns (stay: bool)
    modifies store
    ensures stay == old(store.Live(now))
    ensures store.authToken == if stay then old(store.authToken) else None
    ensures store.users == old(store.users)
  {
    var token := store.GetToken();
    if token.None? || token.value == "" {
      store.RemoveToken();
      return false;
    }
    stay := store.IsTokenValid(now);
    if !stay {
      store.RemoveToken();
    }
  }

  /**
   * With twelve per page: the page shown is the slice `[(page-1)*12, page*12)`
   * of the filtered list, clamped to its length; the page count is the
   * ceiling of a twelfth of its length; and pages 1 to that count, laid end
   * to end, are the filtered list.
   */
  lemma TwelvePerPage(images: seq<Image>, search: string, page: int)
    requires page >= 1
    ensures var f := FilterImages(images, search);
      && DisplayImages(f, page, ItemsPerPage) == f[Min((page - 1) * ItemsPerPage, |f|)..Min(page * ItemsPerPage, |f|)]
      && TotalPages(|f|, ItemsPerPage) * ItemsPerPage >= |f|
      && (TotalPages(|f|, ItemsPerPage) == 0 || (TotalPages(|f|, ItemsPerPage) - 1) * ItemsPerPage < |f|)
      && ConcatPages(f, ItemsPerPage, TotalPages(|f|, ItemsPerPage)) == f
  {
    var f := FilterImages(images, search);
    DisplayPage(f, page, ItemsPerPage);
    TotalPagesIsCeil(|f|, ItemsPerPage);
    PagesPartition(f, ItemsPerPage);
  }
}
