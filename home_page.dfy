/**
 * app/page.js: the gallery page with sixteen images per page (a 4x4 grid).
 * On mount it checks the session and logs out when it is not valid; the
 * same check runs from a ten-second poll, which is not modelled.
 */
module HomePage {
  import opened Wrappers
  import opened Auth
  import opened Gallery
  import opened GalleryState
  import opened Text

  const ItemsPerPage: nat := 16

  /** The component's initial state (app/page.js:7-13). */
  method Mount() returns (view: GalleryView)
    ensures fresh(view) && view.Valid() && view.itemsPerPage == ItemsPerPage
    ensures view.images == [] && view.search == "" && view.page == 1 && view.loading
  {
    view := new GalleryView(ItemsPerPage);
  }

  /**
   * The session check on mount, followed by `logoutUser`, which removes the
   * token: afterwards a token is stored only if it was valid, so an
   * undecodable token is removed here even though `isTokenValid` keeps it.
   */
  method CheckSession(store: CredentialStore, now: int) returns (stay: bool)
    modifies store
    ensures stay == old(store.Live(now))
    ensures store.authToken == if stay then old(store.authToken) else None
    ensures store.users == old(store.users)
  {
    stay := store.IsTokenValid(now);
    if !stay {
      store.RemoveToken();
    }
  }

  /**
   * With sixteen per page: the page shown is the slice
   * `[(page-1)*16, page*16)` of the filtered list, clamped to its length;
   * the page count is the ceiling of a sixteenth of its length; and pages 1
   * to that count, laid end to end, are the filtered list.
   */
  lemma SixteenPerPage(images: seq<Image>, search: string, page: int)
    requires page >= 1
    ensures var f := FilterImages(images, search);
      && DisplayImages(f, page, ItemsPerPage) == f[Min((page - 1) * ItemsPerPage, |f|)..Min(page * ItemsPerPage, |f|)]
      && TotalPages(|f|, ItemsPerPage) * ItemsPerPage >= |f|
      && (TotalPages(|f|, ItemsPerPage) == 0 || (TotalPages(|f|, ItemsPerPage) - 1) * ItemsPerPage < |f|)
      && ConcatPages(f, ItemsPerPage, TotalPages(|f|, ItemsPerPage)) == f
  {
    var f := FilterImages(images, search);
    DisplayPage(f, page, ItemsPerPage);
    TotalPagesIsCeil(|f|, ItemsPerPage);
    PagesPartition(f, ItemsPerPage);
  }

  /** Twenty-five filtered images make two pages, of sixteen and nine. */
  lemma TwentyFiveImages(f: seq<Image>)
    requires |f| == 25
    ensures TotalPages(|f|, ItemsPerPage) == 2
    ensures |DisplayImages(f, 1, ItemsPerPage)| == 16 && |DisplayImages(f, 2, ItemsPerPage)| == 9
  {
    PageSizes(f, 1, ItemsPerPage);
    PageSizes(f, 2, ItemsPerPage);
  }

  /** Searching "john" among John Doe, Jane and Johnny keeps John Doe and Johnny. */
  lemma SearchJohn(a: Image, b: Image, c: Image)
    requires a.author == "John Doe" && b.author == "Jane" && c.author == "Johnny"
    ensures FilterImages([a, b, c], "john") == [a, c]
  {
    var s := [a, b, c];
    assert s[..2] == [a, b] && s[..2][..1] == [a] && [a][..0] == [];
    assert b.author !in Authors([a]) && c.author !in Authors([a, b]);
    assert FirstOccurrences([a]) == [a];
    assert FirstOccurrences([a, b]) == [a, b];
    assert FirstOccurrences(s) == s;
    JohnExampleMatches(a, b, c);
    assert SearchByAuthor([a], "john") == [a];
    assert SearchByAuthor([a, b], "john") == [a];
    FilterIsSearchOfDedupe(s, "john");
  }

  lemma JohnExampleMatches(a: Image, b: Image, c: Image)
    requires a.author == "John Doe" && b.author == "Jane" && c.author == "Johnny"
    ensures Matches(a, "john") && !Matches(b, "john") && Matches(c, "john")
  {
    assert ToLower("john") == "john";
    assert ToLower(a.author) == "john doe";
    assert ToLower(b.author) == "jane";
    assert ToLower(c.author) == "johnny";
    assert OccursAt("john doe", "john", 0);
    assert OccursAt("johnny", "john", 0);
    assert "jane"[..4] != "john";
  }

  /** Two images by A around one by B dedupe to the first A and the B. */
  lemma DedupeFirstA(a1: Image, b: Image, a2: Image)
    requires a1.author == a2.author == "A" && b.author == "B"
    ensures FilterImages([a1, b, a2], "") == [a1, b]
  {
    var s := [a1, b, a2];
    assert s[..2] == [a1, b] && s[..2][..1] == [a1] && [a1][..0] == [];
    assert b.author !in Authors([a1]);
    assert [a1, b][0].author == a2.author;
    assert FirstOccurrences([a1]) == [a1];
    assert FirstOccurrences([a1, b]) == [a1, b];
    FilterEmptyTerm(s);
  }
}
