/**
 * The gallery list view shared by app/page.js and components/Layout.js: the
 * fetched images are filtered in one pass that keeps an image when its
 * author matches the search term case-insensitively and it is the first
 * image of that author in the list, then cut into pages.
 *
 * The reference definitions are `FirstOccurrences` (a left-to-right pass
 * remembering the authors seen) and `SearchByAuthor` (the plain author
 * filter); `FilterImages`, the one-pass filter as the source writes it with
 * `findIndex`, is proved to be the search applied to the first occurrences.
 */
module Gallery {
  import opened Text

  datatype Image = Image(id: string, author: string, downloadUrl: string, url: string, width: int, height: int)

  function Min(a: int, b: int): int { if a <= b then a else b }
  function Max(a: int, b: int): int { if a <= b then b else a }

  /** `img.author.toLowerCase().includes(search.toLowerCase())` */
  predicate Matches(img: Image, term: string) {
    Includes(ToLower(img.author), ToLower(term))
  }

  function Authors(s: seq<Image>): set<string> {
    set i | 0 <= i < |s| :: s[i].author
  }

  /** At most one image per author. */
  predicate DistinctAuthors(s: seq<Image>) {
    forall i, j :: 0 <= i < j < |s| ==> s[i].author != s[j].author
  }

  /** `idx` picks the elements of `a` out of `b`, in increasing positions. */
  ghost predicate Embedding(idx: seq<nat>, a: seq<Image>, b: seq<Image>) {
    && |idx| == |a|
    && (forall k :: 0 <= k < |idx| ==> idx[k] < |b| && a[k] == b[idx[k]])
    && (forall j, k :: 0 <= j < k < |idx| ==> idx[j] < idx[k])
  }

  /** `a` is an order-preserving subsequence of `b`. */
  ghost predicate IsSubsequence(a: seq<Image>, b: seq<Image>) {
    exists idx :: Embedding(idx, a, b)
  }

  /** Position `i` holds the first image of its author. */
  predicate IsFirstOccurrence(s: seq<Image>, i: int) {
    0 <= i < |s| && forall j :: 0 <= j < i ==> s[j].author != s[i].author
  }

  lemma AuthorsSnoc(s: seq<Image>, x: Image)
    ensures Authors(s + [x]) == Authors(s) + {x.author}
  {
    var t := s + [x];
    assert forall a :: a in Authors(s) ==> a in Authors(t) by {
      forall a | a in Authors(s) ensures a in Authors(t) {
        var i :| 0 <= i < |s| && s[i].author == a;
        assert t[i].author == a;
      }
    }
    assert t[|s|].author == x.author;
  }

  lemma EmbeddingExtend(idx: seq<nat>, a: seq<Image>, b: seq<Image>, x: Image)
    requires Embedding(idx, a, b)
    ensures Embedding(idx, a, b + [x])
    ensures Embedding(idx + [|b|], a + [x], b + [x])
  {
  }

  lemma EmbeddingCompose(i1: seq<nat>, a: seq<Image>, b: seq<Image>, i2: seq<nat>, c: seq<Image>)
    requires Embedding(i1, a, b) && Embedding(i2, b, c)
    ensures Embedding(seq(|i1|, k requires 0 <= k < |i1| => i2[i1[k]]), a, c)
  {
  }

  // ---------------------------------------------------------------------
  // `self.findIndex((i) => i.author === img.author)`

  function FindIndexByAuthor(s: seq<Image>, author: string): (r: int)
    ensures -1 <= r < |s|
    ensures r == -1 ==> forall j :: 0 <= j < |s| ==> s[j].author != author
    ensures r >= 0 ==> s[r].author == author && IsFirstOccurrence(s, r)
  {
    if s == [] then -1
    else if s[0].author == author then 0
    else
      var r := FindIndexByAuthor(s[1..], author);
      if r == -1 then -1 else r + 1
  }

  /** `findIndex` returns `i` for the author of image `i` exactly when no earlier image has that author. */
  lemma FindIndexAt(s: seq<Image>, i: int)
    requires 0 <= i < |s|
    ensures FindIndexByAuthor(s, s[i].author) == i <==> s[i].author !in Authors(s[..i])
    ensures FindIndexByAuthor(s, s[i].author) == i <==> IsFirstOccurrence(s, i)
  {
    var a := s[i].author;
    var r := FindIndexByAuthor(s, a);
    assert r != -1;
    assert r <= i;
    if a in Authors(s[..i]) {
      var j :| 0 <= j < i && s[..i][j].author == a;
      assert s[j].author == a;
      assert r <= j;
      assert !IsFirstOccurrence(s, i);
    } else {
      assert forall j :: 0 <= j < i ==> s[j].author != a by {
        forall j | 0 <= j < i ensures s[j].author != a {
          assert s[..i][j] == s[j];
        }
      }
      assert IsFirstOccurrence(s, i);
      assert r == i;
    }
  }

  // ---------------------------------------------------------------------
  // The reference dedupe: first occurrence per author, in list order.

  function FirstOccurrences(s: seq<Image>): seq<Image>
    decreases |s|
  {
    if s == [] then []
    else
      var init, x := s[..|s| - 1], s[|s| - 1];
      if x.author in Authors(init) then FirstOccurrences(init) else FirstOccurrences(init) + [x]
  }

  /** The positions in `s` that `FirstOccurrences` keeps. */
  ghost function FirstPositions(s: seq<Image>): seq<nat>
    decreases |s|
  {
    if s == [] then []
    else
      var init := s[..|s| - 1];
      if s[|s| - 1].author in Authors(init) then FirstPositions(init) else FirstPositions(init) + [|s| - 1]
  }

  lemma {:induction false} FirstPositionsShape(s: seq<Image>)
    ensures Embedding(FirstPositions(s), FirstOccurrences(s), s)
    ensures forall k :: 0 <= k < |FirstPositions(s)| ==> IsFirstOccurrence(s, FirstPositions(s)[k])
    ensures forall i :: IsFirstOccurrence(s, i) ==> i in FirstPositions(s)
    ensures Authors(FirstOccurrences(s)) == Authors(s)
    decreases |s|
  {
    if s != [] {
      var init, x := s[..|s| - 1], s[|s| - 1];
      assert s == init + [x];
      FirstPositionsShape(init);
      EmbeddingStep(init, x);
      FirstPositionsStep(init, x);
    }
  }

  /** One more image keeps the dedupe embedded in the list and its author set equal to the list's. */
  lemma EmbeddingStep(init: seq<Image>, x: Image)
    requires Embedding(FirstPositions(init), FirstOccurrences(init), init)
    requires Authors(FirstOccurrences(init)) == Authors(init)
    ensures Embedding(FirstPositions(init + [x]), FirstOccurrences(init + [x]), init + [x])
    ensures Authors(FirstOccurrences(init + [x])) == Authors(init + [x])
  {
    var s := init + [x];
    assert s[..|s| - 1] == init;
    EmbeddingExtend(FirstPositions(init), FirstOccurrences(init), init, x);
    AuthorsSnoc(init, x);
    if x.author !in Authors(init) {
      AuthorsSnoc(FirstOccurrences(init), x);
    }
  }

  /** One more image keeps `FirstPositions` equal to the first-occurrence positions. */
  lemma FirstPositionsStep(init: seq<Image>, x: Image)
    requires forall k :: 0 <= k < |FirstPositions(init)| ==> IsFirstOccurrence(init, FirstPositions(init)[k])
    requires forall i :: IsFirstOccurrence(init, i) ==> i in FirstPositions(init)
    ensures forall k :: 0 <= k < |FirstPositions(init + [x])| ==>
      IsFirstOccurrence(init + [x], FirstPositions(init + [x])[k])
    ensures forall i :: IsFirstOccurrence(init + [x], i) ==> i in FirstPositions(init + [x])
  {
    var s := init + [x];
    assert s[..|s| - 1] == init;
    assert forall i :: 0 <= i < |init| ==> (IsFirstOccurrence(s, i) <==> IsFirstOccurrence(init, i));
    if x.author in Authors(init) {
      var j :| 0 <= j < |init| && init[j].author == x.author;
      assert !IsFirstOccurrence(s, |s| - 1);
    } else {
      assert IsFirstOccurrence(s, |s| - 1);
    }
  }

  /** The dedupe keeps one image per author, the first of each, in list order, and loses no author. */
  lemma FirstOccurrencesSpec(s: seq<Image>)
    ensures IsSubsequence(FirstOccurrences(s), s)
    ensures DistinctAuthors(FirstOccurrences(s))
    ensures Authors(FirstOccurrences(s)) == Authors(s)
    ensures forall k :: 0 <= k < |FirstOccurrences(s)| ==>
      var i := FindIndexByAuthor(s, FirstOccurrences(s)[k].author); 0 <= i && FirstOccurrences(s)[k] == s[i]
  {
    var r, idx := FirstOccurrences(s), FirstPositions(s);
    FirstPositionsShape(s);
    forall k | 0 <= k < |r|
      ensures var i := FindIndexByAuthor(s, r[k].author); 0 <= i && r[k] == s[i]
    {
      FindIndexAt(s, idx[k]);
    }
  }

  /** As many images as distinct authors. */
  lemma {:induction false} FirstOccurrencesCount(s: seq<Image>)
    ensures |FirstOccurrences(s)| == |Authors(s)|
    decreases |s|
  {
    if s != [] {
      var init, x := s[..|s| - 1], s[|s| - 1];
      assert s == init + [x];
      FirstOccurrencesCount(init);
      AuthorsSnoc(init, x);
      if x.author !in Authors(init) {
        assert |Authors(init) + {x.author}| == |Authors(init)| + 1;
      } else {
        assert Authors(init) + {x.author} == Authors(init);
      }
    }
  }

  /** The dedupe of a prefix is a prefix of the dedupe. */
  lemma {:induction false} FirstOccurrencesPrefix(s: seq<Image>, n: nat)
    requires n <= |s|
    ensures |FirstOccurrences(s[..n])| <= |FirstOccurrences(s)|
    ensures FirstOccurrences(s)[..|FirstOccurrences(s[..n])|] == FirstOccurrences(s[..n])
    decreases |s|
  {
    if n < |s| {
      var init := s[..|s| - 1];
      assert init[..n] == s[..n];
      FirstOccurrencesPrefix(init, n);
    } else {
      assert s[..n] == s;
    }
  }

  // ---------------------------------------------------------------------
  // The author search.

  function SearchByAuthor(s: seq<Image>, term: string): seq<Image>
    decreases |s|
  {
    if s == [] then []
    else
      var rest := SearchByAuthor(s[..|s| - 1], term);
      if Matches(s[|s| - 1], term) then rest + [s[|s| - 1]] else rest
  }

  ghost function MatchPositions(s: seq<Image>, term: string): seq<nat>
    decreases |s|
  {
    if s == [] then []
    else
      var rest := MatchPositions(s[..|s| - 1], term);
      if Matches(s[|s| - 1], term) then rest + [|s| - 1] else rest
  }

  /** The search keeps exactly the matching images, in list order. */
  lemma {:induction false} SearchShape(s: seq<Image>, term: string)
    ensures Embedding(MatchPositions(s, term), SearchByAuthor(s, term), s)
    ensures forall i :: 0 <= i < |s| ==> (i in MatchPositions(s, term) <==> Matches(s[i], term))
    decreases |s|
  {
    if s != [] {
      var init, x := s[..|s| - 1], s[|s| - 1];
      assert s == init + [x];
      SearchShape(init, term);
      EmbeddingExtend(MatchPositions(init, term), SearchByAuthor(init, term), init, x);
    }
  }

  lemma SearchSpec(s: seq<Image>, term: string)
    ensures forall k :: 0 <= k < |SearchByAuthor(s, term)| ==> Matches(SearchByAuthor(s, term)[k], term)
    ensures IsSubsequence(SearchByAuthor(s, term), s)
    ensures forall i :: 0 <= i < |s| && Matches(s[i], term) ==> s[i] in SearchByAuthor(s, term)
  {
    var r, idx := SearchByAuthor(s, term), MatchPositions(s, term);
    SearchShape(s, term);
    forall i | 0 <= i < |s| && Matches(s[i], term) ensures s[i] in r {
      var k :| 0 <= k < |idx| && idx[k] == i;
      assert r[k] == s[i];
    }
  }

  /** Every author contains the empty string, so an empty term keeps everything. */
  lemma {:induction false} SearchEmptyTerm(s: seq<Image>)
    ensures SearchByAuthor(s, "") == s
    decreases |s|
  {
    if s != [] {
      SearchEmptyTerm(s[..|s| - 1]);
      IncludesEmpty(ToLower(s[|s| - 1].author));
    }
  }

  lemma SearchOfDistinct(s: seq<Image>, term: string)
    requires DistinctAuthors(s)
    ensures DistinctAuthors(SearchByAuthor(s, term))
  {
    SearchShape(s, term);
  }

  // ---------------------------------------------------------------------
  // The filter as app/page.js:77-81 and components/Layout.js:38-42 write it.

  predicate KeepAt(images: seq<Image>, term: string, i: int)
    requires 0 <= i < |images|
  {
    Matches(images[i], term) && i == FindIndexByAuthor(images, images[i].author)
  }

  function FilterPrefix(images: seq<Image>, term: string, n: nat): seq<Image>
    requires n <= |images|
  {
    if n == 0 then []
    else FilterPrefix(images, term, n - 1) + if KeepAt(images, term, n - 1) then [images[n - 1]] else []
  }

  /** `images.filter((img, index, self) => matches && index === self.findIndex(...))` */
  function FilterImages(images: seq<Image>, term: string): seq<Image> {
    FilterPrefix(images, term, |images|)
  }

  lemma {:induction false} FilterPrefixIsSearchOfDedupe(images: seq<Image>, term: string, n: nat)
    requires n <= |images|
    ensures FilterPrefix(images, term, n) == SearchByAuthor(FirstOccurrences(images[..n]), term)
  {
    if n > 0 {
      var init, x := images[..n - 1], images[n - 1];
      assert images[..n] == init + [x];
      FilterPrefixIsSearchOfDedupe(images, term, n - 1);
      FindIndexAt(images, n - 1);
      SearchOfDedupeStep(init, x, term);
    }
  }

  /** One more image adds itself to the search of the dedupe exactly when it matches and its author is new. */
  lemma SearchOfDedupeStep(init: seq<Image>, x: Image, term: string)
    ensures SearchByAuthor(FirstOccurrences(init + [x]), term) ==
      SearchByAuthor(FirstOccurrences(init), term) + if Matches(x, term) && x.author !in Authors(init) then [x] else []
  {
    var s := init + [x];
    assert s[..|s| - 1] == init;
    var d := FirstOccurrences(init);
    if x.author !in Authors(init) {
      assert (d + [x])[..|d|] == d;
    }
  }

  /** The one-pass filter is the author search applied to the first-occurrence dedupe. */
  lemma FilterIsSearchOfDedupe(images: seq<Image>, term: string)
    ensures FilterImages(images, term) == SearchByAuthor(FirstOccurrences(images), term)
  {
    FilterPrefixIsSearchOfDedupe(images, term, |images|);
    assert images[..|images|] == images;
  }

  /**
   * What the filtered list is: matching images only, in list order, one per
   * author, each its author's first image in the whole list, and every
   * matching author represented.
   */
  lemma FilterImagesSpec(images: seq<Image>, term: string)
    ensures forall k :: 0 <= k < |FilterImages(images, term)| ==> Matches(FilterImages(images, term)[k], term)
    ensures IsSubsequence(FilterImages(images, term), images)
    ensures DistinctAuthors(FilterImages(images, term))
    ensures forall k :: 0 <= k < |FilterImages(images, term)| ==>
      var i := FindIndexByAuthor(images, FilterImages(images, term)[k].author);
      0 <= i && FilterImages(images, term)[k] == images[i]
    ensures forall i :: 0 <= i < |images| && Matches(images[i], term) ==>
      images[i].author in Authors(FilterImages(images, term))
  {
    FilterIsSearchOfDedupe(images, term);
    SearchOfDedupeSpec(images, term);
  }

  /** `FilterImagesSpec`, stated of the search applied to the dedupe. */
  lemma SearchOfDedupeSpec(images: seq<Image>, term: string)
    ensures var r := SearchByAuthor(FirstOccurrences(images), term);
      && (forall k :: 0 <= k < |r| ==> Matches(r[k], term))
      && IsSubsequence(r, images)
      && DistinctAuthors(r)
      && (forall k :: 0 <= k < |r| ==>
            var i := FindIndexByAuthor(images, r[k].author); 0 <= i && r[k] == images[i])
      && (forall i :: 0 <= i < |images| && Matches(images[i], term) ==> images[i].author in Authors(r))
  {
    var d := FirstOccurrences(images);
    FirstOccurrencesSpec(images);
    SearchSpec(d, term);
    SearchOfDistinct(d, term);
    SearchOfDedupeOrder(images, term);
    SearchOfDedupeFirsts(images, term);
    SearchOfDedupeCovers(images, term);
  }

  lemma SearchOfDedupeOrder(images: seq<Image>, term: string)
    ensures IsSubsequence(SearchByAuthor(FirstOccurrences(images), term), images)
  {
    var d := FirstOccurrences(images);
    FirstPositionsShape(images);
    SearchShape(d, term);
    EmbeddingCompose(MatchPositions(d, term), SearchByAuthor(d, term), d, FirstPositions(images), images);
  }

  lemma SearchOfDedupeFirsts(images: seq<Image>, term: string)
    ensures var r := SearchByAuthor(FirstOccurrences(images), term);
      forall k :: 0 <= k < |r| ==>
        var i := FindIndexByAuthor(images, r[k].author); 0 <= i && r[k] == images[i]
  {
    var d := FirstOccurrences(images);
    var r := SearchByAuthor(d, term);
    FirstOccurrencesSpec(images);
    SearchShape(d, term);
    forall k | 0 <= k < |r|
      ensures var i := FindIndexByAuthor(images, r[k].author); 0 <= i && r[k] == images[i]
    {
      assert r[k] == d[MatchPositions(d, term)[k]];
    }
  }

  lemma SearchOfDedupeCovers(images: seq<Image>, term: string)
    ensures forall i :: 0 <= i < |images| && Matches(images[i], term) ==>
      images[i].author in Authors(SearchByAuthor(FirstOccurrences(images), term))
  {
    var d := FirstOccurrences(images);
    var r := SearchByAuthor(d, term);
    FirstOccurrencesSpec(images);
    SearchSpec(d, term);
    forall i | 0 <= i < |images| && Matches(images[i], term)
      ensures images[i].author in Authors(r)
    {
      assert images[i].author in Authors(d);
      var j :| 0 <= j < |d| && d[j].author == images[i].author;
      assert Matches(d[j], term);
      var k :| 0 <= k < |r| && r[k] == d[j];
    }
  }

  /** With an empty search term the filter is exactly the first-occurrence dedupe. */
  lemma FilterEmptyTerm(images: seq<Image>)
    ensures FilterImages(images, "") == FirstOccurrences(images)
  {
    FilterIsSearchOfDedupe(images, "");
    SearchEmptyTerm(FirstOccurrences(images));
  }

  // ---------------------------------------------------------------------
  // Pages (app/page.js:83-85, components/Layout.js:44-46).

  /** `s.slice(start, end)`: a negative bound counts back from the end, bounds are clamped to the length. */
  function Slice(s: seq<Image>, start: int, end: int): seq<Image> {
    var from := if start < 0 then Max(|s| + start, 0) else Min(start, |s|);
    var to := if end < 0 then Max(|s| + end, 0) else Min(end, |s|);
    if from < to then s[from..to] else []
  }

  /** The images shown on page `page` (numbered from 1). */
  function DisplayImages(filtered: seq<Image>, page: int, perPage: nat): seq<Image> {
    var startIndex := (page - 1) * perPage;
    Slice(filtered, startIndex, startIndex + perPage)
  }

  /** `Math.ceil(n / perPage)`, in integer arithmetic. */
  function TotalPages(n: nat, perPage: nat): nat
    requires perPage > 0
  {
    (n + perPage - 1) / perPage
  }

  lemma TotalPagesIsCeil(n: nat, perPage: nat)
    requires perPage > 0
    ensures TotalPages(n, perPage) * perPage >= n
    ensures TotalPages(n, perPage) == 0 || (TotalPages(n, perPage) - 1) * perPage < n
    ensures TotalPages(n, perPage) == 0 <==> n == 0
  {
  }

  lemma MulMonotone(a: int, b: int, k: nat)
    requires a <= b
    ensures a * k <= b * k
  {
  }

  lemma MulSucc(a: int, k: nat)
    ensures (a - 1) * k + k == a * k
  {
  }

  /** A page from 1 on is the slice `[(page-1)*perPage, page*perPage)` clamped to the list. */
  lemma DisplayPage(s: seq<Image>, page: int, perPage: nat)
    requires perPage > 0 && page >= 1
    ensures DisplayImages(s, page, perPage) == s[Min((page - 1) * perPage, |s|)..Min(page * perPage, |s|)]
    ensures |DisplayImages(s, page, perPage)| <= perPage
  {
    MulSucc(page, perPage);
  }

  /** Page 0, which Next reaches on an empty list, shows nothing; so does every page past the last. */
  lemma DisplayOutsidePages(s: seq<Image>, page: int, perPage: nat)
    requires perPage > 0 && (page == 0 || page > TotalPages(|s|, perPage))
    ensures DisplayImages(s, page, perPage) == []
  {
    if page > 0 {
      TotalPagesIsCeil(|s|, perPage);
      var t := TotalPages(|s|, perPage);
      MulMonotone(t, page - 1, perPage);
      var start := (page - 1) * perPage;
      assert start >= |s|;
      assert Slice(s, start, start + perPage) == [];
    }
  }

  /** Where page `page` starts and ends relative to the list length. */
  lemma PageBounds(n: nat, perPage: nat, page: int)
    requires perPage > 0 && 1 <= page <= TotalPages(n, perPage)
    ensures (page - 1) * perPage < n
    ensures page < TotalPages(n, perPage) ==> page * perPage < n
    ensures page == TotalPages(n, perPage) ==> page * perPage >= n
  {
    var t := TotalPages(n, perPage);
    TotalPagesIsCeil(n, perPage);
    MulMonotone(page - 1, t - 1, perPage);
    MulSucc(page, perPage);
    if page < t {
      MulMonotone(page, t - 1, perPage);
    }
  }

  /** Every page but the last is full; the last holds the remainder. */
  lemma PageSizes(s: seq<Image>, page: int, perPage: nat)
    requires perPage > 0 && 1 <= page <= TotalPages(|s|, perPage)
    ensures page < TotalPages(|s|, perPage) ==> |DisplayImages(s, page, perPage)| == perPage
    ensures page == TotalPages(|s|, perPage) ==>
      |DisplayImages(s, page, perPage)| == |s| - (page - 1) * perPage
  {
    var a, b := (page - 1) * perPage, page * perPage;
    MulSucc(page, perPage);
    PageBounds(|s|, perPage, page);
    DisplayPage(s, page, perPage);
    assert Min(a, |s|) == a;
    assert |DisplayImages(s, page, perPage)| == Min(b, |s|) - a;
  }

  /** Pages 1 to `m`, laid end to end. */
  function ConcatPages(s: seq<Image>, perPage: nat, m: nat): seq<Image> {
    if m == 0 then [] else ConcatPages(s, perPage, m - 1) + DisplayImages(s, m, perPage)
  }

  lemma ConcatPagesPrefix(s: seq<Image>, perPage: nat, m: nat)
    requires perPage > 0
    ensures ConcatPages(s, perPage, m) == s[..Min(m * perPage, |s|)]
  {
    ConcatPagesUpTo(s, perPage, m, m * perPage);
  }

  /** Pages 1 to `m` cover `s[..end]`, `end` being where page `m` stops. */
  lemma {:induction false} ConcatPagesUpTo(s: seq<Image>, perPage: nat, m: nat, end: int)
    requires perPage > 0 && end == m * perPage
    ensures ConcatPages(s, perPage, m) == s[..Min(end, |s|)]
  {
    if m > 0 {
      MulSucc(m, perPage);
      MulMonotone(0, m - 1, perPage);
      var start := end - perPage;
      ConcatPagesUpTo(s, perPage, m - 1, start);
      DisplayPage(s, m, perPage);
      PrefixJoin(s, Min(start, |s|), Min(end, |s|));
    }
  }

  lemma PrefixJoin(s: seq<Image>, a: nat, b: nat)
    requires a <= b <= |s|
    ensures s[..a] + s[a..b] == s[..b]
  {
  }

  /** Pages 1 to the page count, laid end to end, give back the whole list. */
  lemma PagesPartition(s: seq<Image>, perPage: nat)
    requires perPage > 0
    ensures ConcatPages(s, perPage, TotalPages(|s|, perPage)) == s
  {
    TotalPagesIsCeil(|s|, perPage);
    ConcatPagesPrefix(s, perPage, TotalPages(|s|, perPage));
    assert s[..|s|] == s;
  }

  // ---------------------------------------------------------------------
  // Page transitions (app/page.js:121, 125; components/Layout.js:91, 107).

  /** `setPage(p => Math.max(p - 1, 1))` */
  function PrevPage(p: int): int { Max(p - 1, 1) }

  /** `setPage(p => Math.min(p + 1, totalPages))` */
  function NextPage(p: int, totalPages: int): int { Min(p + 1, totalPages) }

  /**
   * From any page in `0..max(1, totalPages)`, Prev lands in `1..max(1, totalPages)`
   * and Next in `0..totalPages`; Next reaches page 0 only when there are no pages.
   */
  lemma PageClampsInRange(p: int, totalPages: nat)
    requires 0 <= p <= Max(1, totalPages)
    ensures 1 <= PrevPage(p) <= Max(1, totalPages)
    ensures 0 <= NextPage(p, totalPages) <= totalPages
    ensures NextPage(p, totalPages) == 0 <==> totalPages == 0
    ensures p < totalPages ==> NextPage(p, totalPages) == p + 1
    ensures p > 1 ==> PrevPage(p) == p - 1
  {
  }
}
