/**
 * components/ImageList.js: a gallery variant that keeps the first image of
 * each of the first ten distinct authors of the fetched list, and searches
 * that short list by author, skipping the filter when the term is empty.
 */
module ImageList {
  import opened Gallery

  /** `perPage`: how many distinct authors are kept. */
  const PerPage: nat := 10

  /**
   * The dedupe loop: walk the list, keep an image whose author has not been
   * seen, and stop once ten are kept.  The result is the first ten (or all, if
   * fewer) first-occurrence images.
   */
  method FirstDistinctAuthors(data: seq<Image>) returns (unique: seq<Image>)
    ensures unique == FirstOccurrences(data)[..Min(PerPage, |FirstOccurrences(data)|)]
    ensures |unique| == Min(PerPage, |Authors(data)|)
    ensures IsSubsequence(unique, data) && DistinctAuthors(unique)
  {
    unique := [];
    var seen: set<string> := {};
    var i := 0;
    while i < |data|
      invariant 0 <= i <= |data|
      invariant unique == FirstOccurrences(data[..i])
      invariant seen == Authors(unique) == Authors(data[..i])
      invariant |unique| < PerPage
    {
      var img := data[i];
      DedupeStep(data, i);
      if img.author !in seen {
        AuthorsSnoc(unique, img);
        unique := unique + [img];
        seen := seen + {img.author};
      }
      i := i + 1;
      if |unique| == PerPage {
        break;
      }
    }
    StopWithFirstAuthors(data, i);
  }

  /** One step of the walk extends the dedupe and the seen authors of the prefix by `data[i]`. */
  lemma DedupeStep(data: seq<Image>, i: nat)
    requires i < |data|
    ensures FirstOccurrences(data[..i + 1]) ==
      if data[i].author in Authors(data[..i]) then FirstOccurrences(data[..i])
      else FirstOccurrences(data[..i]) + [data[i]]
    ensures Authors(data[..i + 1]) == Authors(data[..i]) + {data[i].author}
  {
    assert data[..i + 1][..i] == data[..i] && data[..i + 1][i] == data[i];
    assert data[..i] + [data[i]] == data[..i + 1];
    AuthorsSnoc(data[..i], data[i]);
  }

  /**
   * Stopping after a prefix whose dedupe holds ten images, or after the whole
   * list, leaves the first ten (or all) first-occurrence images.
   */
  lemma StopWithFirstAuthors(data: seq<Image>, i: nat)
    requires i <= |data| && |FirstOccurrences(data[..i])| <= PerPage
    requires i == |data| || |FirstOccurrences(data[..i])| == PerPage
    ensures FirstOccurrences(data[..i]) == FirstOccurrences(data)[..Min(PerPage, |FirstOccurrences(data)|)]
    ensures |FirstOccurrences(data[..i])| == Min(PerPage, |Authors(data)|)
    ensures IsSubsequence(FirstOccurrences(data[..i]), data) && DistinctAuthors(FirstOccurrences(data[..i]))
  {
    var d, u := FirstOccurrences(data), FirstOccurrences(data[..i]);
    FirstOccurrencesPrefix(data, i);
    FirstOccurrencesCount(data);
    FirstOccurrencesSpec(data);
    if i == |data| {
      assert data[..i] == data;
    }
    var n := Min(PerPage, |d|);
    assert u == d[..n];
    var idx :| Embedding(idx, d, data);
    assert Embedding(idx[..n], u, data);
  }

  /** `search ? images.filter(matches) : images` */
  function SearchImages(images: seq<Image>, term: string): seq<Image> {
    if term != "" then SearchByAuthor(images, term) else images
  }

  /** The empty-term shortcut changes nothing: the result is always the author search. */
  lemma SearchShortcutAgrees(images: seq<Image>, term: string)
    ensures SearchImages(images, term) == SearchByAuthor(images, term)
  {
  }

  /**
   * The search result: matching images only, in list order, every matching
   * image kept; with an empty term, the list itself.
   */
  lemma SearchImagesSpec(images: seq<Image>, term: string)
    ensures term == "" ==> SearchImages(images, term) == images
    ensures forall k :: 0 <= k < |SearchImages(images, term)| ==> Matches(SearchImages(images, term)[k], term)
    ensures IsSubsequence(SearchImages(images, term), images)
    ensures forall i :: 0 <= i < |images| && Matches(images[i], term) ==> images[i] in SearchImages(images, term)
  {
    SearchShortcutAgrees(images, term);
    SearchSpec(images, term);
  }
}
