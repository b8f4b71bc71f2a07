# gallery-auth in Dafny

A model of the two pieces of logic in the gallery-auth demo application:

- **The credential and session store** (`lib/auth.js`). Browser storage holds
  two keys. "users" is the list of registered `{email, password}` records.
  "authToken" is the one current session token.
  `Auth.CredentialStore` is a class with those two fields and one method per
  exported function: register, login (issues a token that expires ten
  minutes later, in milliseconds), save/get/remove token, and the validity and
  current-user checks (these remove a token only when it has expired). The
  clock is the parameter `now`.
- **The gallery list view** (`app/page.js`, 16 per page; `components/Layout.js`,
  the same code with 12 per page; `components/ImageList.js`, a loop variant).
  The fetched image list is filtered in one pass. An image is kept when its
  author contains the search term, ignoring case, and it is the first image
  of that author. The result is then sliced into pages, with Prev/Next
  clamps. `Gallery` holds the pure functions and their proofs.
  `GalleryState.GalleryView` is the component state (images, search, page,
  loading) with the handlers that update it. `HomePage` and `LayoutPage` fix
  the page sizes and model the session check on mount. `ImageList` is the
  dedupe loop that stops after ten distinct authors, and its search.

The `jwt-simple` codec is replaced by `TokenCodec`, a concrete, unsigned
stand-in. A token is the decimal `exp`, a dot, and the email. Decimals are
canonical, so a string decodes to `p` exactly when it is `Encode(p)`
(`TokenCodec.DecodeOnlyIssued`). That property, and
`Auth.StoredDecodesOnlyIssued` built on it, hold of this stand-in only. In
`lib/auth.js` the signing key is a constant in the client bundle (`:3`), so
anyone can sign a payload of their own choosing. A payload with no numeric
`exp` is never expired there, because `undefined < Date.now()` is false
(`:76`, `:94`).

Two reference definitions carry the gallery proofs:

- `Gallery.FirstOccurrences` is a left-to-right dedupe that remembers the
  authors already seen.
- `Gallery.SearchByAuthor` is the plain author filter.

The source's `findIndex` filter is proved equal to the search applied to the
dedupe (`Gallery.FilterIsSearchOfDedupe`). The ImageList loop is proved to
return the first ten entries of the dedupe.

Points of the code that the model follows as written:

- `isTokenValid` and `getCurrentUser` leave a token that fails to decode in
  place (`lib/auth.js:81-82`, `:99-100`). Only an expired token is removed
  (`:76-78`, `:94-96`). The pages' mount checks remove it through their logout
  path (`HomePage.CheckSession`, `LayoutPage.CheckSession`).
- `exp` is in milliseconds (`lib/auth.js:33`). Section 4.1.4 of RFC 7519 uses
  seconds. A token is still valid when `exp == now` (`exp < now` is the expiry test).
- JavaScript's `!token` also treats a stored empty string as no token.
- `components/Layout.js:38-42` is the same filter expression as
  `app/page.js:77-81`, and its handlers (`:73`, `:91`, `:107`) are the same as
  `app/page.js:103`, `:121`, `:125`. One definition serves both.
- When the filtered list is empty, Next sets the page to `min(2, 0) = 0`.
  Page 0 shows nothing (`Gallery.DisplayOutsidePages`).

## Model

| member | source | states |
|---|---|---|
| `TokenCodec.IndexOf` | lib/auth.js:75 | the position found holds the separator and no earlier position does; none means the separator is absent |
| `TokenCodec.NatToDecimal` | lib/auth.js:36 | the numeral written for the expiry is canonical (digits only, no leading zero except for 0 itself) |
| `TokenCodec.DecimalRoundTrip` | lib/auth.js:36 | reading back a written natural number gives that number |
| `TokenCodec.CanonicalRoundTrip` | lib/auth.js:75 | a canonical numeral is the one written for the number it reads as |
| `TokenCodec.IntRoundTrip` | lib/auth.js:36 | reading back a written (possibly negative) expiry gives that expiry |
| `TokenCodec.ParseIntCanonical` | lib/auth.js:75 | an accepted numeral is exactly the one written for its value |
| `TokenCodec.Encode` | lib/auth.js:36 | stands in for `jwt.encode(payload, SECRET_KEY)`: the decimal `exp`, a dot, the email; `TokenCodec.DecodeEncode` and `TokenCodec.DecodeOnlyIssued` state its properties |
| `TokenCodec.Decode` | lib/auth.js:75 | stands in for `jwt.decode(token, SECRET_KEY)` (also at lib/auth.js:93): splits at the first dot and reads the `exp`, `None` where the source throws; `TokenCodec.DecodeEncode` and `TokenCodec.DecodeOnlyIssued` state its properties |
| `TokenCodec.DecodeEncode` | lib/auth.js:36 | decoding an issued token gives back its payload |
| `TokenCodec.DecodeOnlyIssued` | lib/auth.js:74-75 | a string decodes to a payload if and only if it is that payload's encoding |
| `Auth.FindByEmail` | lib/auth.js:11 | a record is found exactly when some record has the email, and the found record has it |
| `Auth.FindUser` | lib/auth.js:27 | the exact `{email, password}` record is found if and only if it is registered |
| `Auth.AppendFreshKeepsUnique` | lib/auth.js:11-16 | appending a record whose email is new keeps emails unique |
| `Auth.IssuedTokenLifetime` | lib/auth.js:31-36 | a token issued at `t` decodes to `{email, t + SessionLength}` (ten minutes in milliseconds) and counts as expired exactly when `now > t + SessionLength` |
| `Auth.StoredDecodesOnlyIssued` | lib/auth.js:71-75 | a stored token yields a session exactly when it is the encoding of that session |
| `Auth.CredentialStore.RegisterUser` | lib/auth.js:7-18 | false and no change when the email is registered; otherwise true and the record appended at the end; earlier records kept; unique emails stay unique; token untouched |
| `Auth.CredentialStore.SaveToken` | lib/auth.js:44-48 | the token slot holds the given token |
| `Auth.CredentialStore.GetToken` | lib/auth.js:50-57 | returns the token slot |
| `Auth.CredentialStore.RemoveToken` | lib/auth.js:59-63 | the token slot is empty, users unchanged |
| `Auth.CredentialStore.LoginUser` | lib/auth.js:23-39 | succeeds exactly when the exact record exists; then returns and stores (overwriting) the encoding of `{email, now + 600000}`; otherwise the token is untouched; users never change |
| `Auth.CredentialStore.IsTokenValid` | lib/auth.js:68-84 | true exactly when a decodable token with `exp >= now` is stored; removes the token exactly when it has expired; absent or undecodable tokens are left as they are |
| `Auth.CredentialStore.GetCurrentUser` | lib/auth.js:86-102 | returns the session's email exactly when `IsTokenValid` would return true, with the same removal of an expired token |
| `Auth.RegisterLoginRoundTrip` | lib/auth.js:15-98 | registering a fresh email, logging in with it and asking for the current user at the same instant yields that email |
| `Auth.ExpiryRoundTrip` | lib/auth.js:31-80 | a token issued at `t` is valid at `later` if and only if `later <= t + SessionLength`, and is removed when not |
| `RegisterPage.HandleRegister` | app/register/page.js:11-18 | an empty email or password is refused with no change; otherwise registration as above; records with empty fields never enter the store |
| `Text.ToLower` | app/page.js:79 | same length, each letter lowered, no upper-case ASCII letter left |
| `Text.Includes` | app/page.js:79 | true if and only if the needle occurs at some position of the haystack |
| `Gallery.AuthorsSnoc` | components/ImageList.js:23 | adding an image adds its author to the set of authors |
| `Gallery.FindIndexByAuthor` | app/page.js:80 | -1 exactly when no image has the author; otherwise an index of that author with no earlier one |
| `Gallery.Matches` | app/page.js:79 | `img.author.toLowerCase().includes(search.toLowerCase())`; `Text.Includes` states what the test means, `Gallery.SearchEmptyTerm` that the empty term matches everything |
| `Gallery.FindIndexAt` | app/page.js:80 | `findIndex` returns `i` for image `i`'s author if and only if no earlier image has that author |
| `Gallery.FirstPositionsShape` | app/page.js:80 | the dedupe picks, in increasing order, exactly the first-occurrence positions, and keeps every author |
| `Gallery.FirstOccurrencesSpec` | app/page.js:77-81 | the dedupe is an order-preserving subsequence with one image per author, each the first of its author, and the same set of authors |
| `Gallery.FirstOccurrencesCount` | components/ImageList.js:25 | the dedupe has as many images as there are distinct authors |
| `Gallery.FirstOccurrencesPrefix` | components/ImageList.js:20-25 | the dedupe of a prefix is a prefix of the dedupe |
| `Gallery.SearchShape` | components/ImageList.js:34-35 | the search picks, in increasing order, exactly the positions of matching images |
| `Gallery.SearchSpec` | components/ImageList.js:34-35 | the search keeps only matching images, in order, and every matching image |
| `Gallery.SearchEmptyTerm` | app/page.js:79 | an empty term matches every image |
| `Gallery.SearchOfDistinct` | app/page.js:77-81 | searching a list with one image per author keeps that property |
| `Gallery.KeepAt` | app/page.js:79-80 | the filter callback at index `i`: the image matches and `i` is its author's `findIndex`; `Gallery.FindIndexAt` states when the second half holds |
| `Gallery.FilterPrefix` | app/page.js:77-81 | the filter's single pass over the first `n` images; `Gallery.FilterPrefixIsSearchOfDedupe` states what it computes |
| `Gallery.FilterImages` | app/page.js:77-81 | `filteredImages`, the same expression as components/Layout.js:38-42; `Gallery.FilterIsSearchOfDedupe` and `Gallery.FilterImagesSpec` state what it keeps |
| `Gallery.FilterPrefixIsSearchOfDedupe` | app/page.js:77-81 | the one-pass filter over the first `n` images is the search applied to the dedupe of those images |
| `Gallery.FilterIsSearchOfDedupe` | app/page.js:77-81 | the `findIndex` filter equals the author search applied to the first-occurrence dedupe |
| `Gallery.SearchOfDedupeStep` | app/page.js:77-81 | one more image extends the search of the dedupe by itself exactly when it matches and its author is new |
| `Gallery.SearchOfDedupeSpec` | app/page.js:77-81 | the search of the dedupe matches the term, is an order-preserving subsequence with one image per author, each its author's first image, and covers every matching author |
| `Gallery.FilterImagesSpec` | app/page.js:77-81 | `filteredImages` matches the term, is an order-preserving subsequence with one image per author, each that author's first image in the whole list, and every matching author appears |
| `Gallery.FilterEmptyTerm` | app/page.js:79-80 | with an empty term, `filteredImages` is exactly the first-occurrence dedupe |
| `Gallery.Slice` | app/page.js:84 | `Array.prototype.slice` with negative bounds counted from the end and bounds clamped; `Gallery.DisplayPage` and `Gallery.DisplayOutsidePages` state what it returns for the pages |
| `Gallery.DisplayImages` | app/page.js:83-84 | `displayImages` from `startIndex = (page - 1) * itemsPerPage`; `Gallery.DisplayPage`, `Gallery.DisplayOutsidePages` and `Gallery.PageSizes` state its contents and sizes |
| `Gallery.TotalPages` | app/page.js:85 | `totalPages` as integer ceiling division; `Gallery.TotalPagesIsCeil` states that it is the ceiling |
| `Gallery.TotalPagesIsCeil` | app/page.js:85 | the page count is the ceiling of length over page size, 0 only for an empty list |
| `Gallery.DisplayPage` | app/page.js:83-84 | page `p >= 1` is the slice `[(p-1)*k, p*k)` clamped to the list, at most `k` images |
| `Gallery.DisplayOutsidePages` | app/page.js:83-84 | page 0 and pages past the count show nothing |
| `Gallery.PageBounds` | app/page.js:83-85 | a page from 1 to the count starts inside the list; every page before the last ends inside it, the last at or past its end |
| `Gallery.PageSizes` | app/page.js:83-85 | every page before the last is full; the last holds the remainder |
| `Gallery.ConcatPagesUpTo` | app/page.js:83-84 | pages 1 to `m` laid end to end are the images before `min(end, n)`, `end` being `m*k` |
| `Gallery.ConcatPagesPrefix` | app/page.js:83-84 | pages 1 to `m` laid end to end are the first `min(m*k, n)` images |
| `Gallery.PagesPartition` | app/page.js:84-85 | pages 1 to the page count laid end to end are the whole filtered list |
| `Gallery.PrevPage` | app/page.js:121 | the Prev update `Math.max(p - 1, 1)`; `Gallery.PageClampsInRange` states its range |
| `Gallery.NextPage` | app/page.js:125 | the Next update `Math.min(p + 1, totalPages)`; `Gallery.PageClampsInRange` states its range and when it is 0 |
| `Gallery.PageClampsInRange` | app/page.js:121-125 | from a page in range, Prev gives a page in `1..max(1, total)` and Next a page in `0..total`; Next gives 0 only when there are no pages |
| `GalleryState.GalleryView.constructor` | app/page.js:7-13 | starts with no images, empty search, page 1, loading |
| `GalleryState.GalleryView.Filtered` | components/Layout.js:38-42 | `filteredImages` of the current state, which is `Gallery.FilterImages` of the images and search term |
| `GalleryState.GalleryView.PageCount` | components/Layout.js:46 | `totalPages` of the current state; `GalleryState.GalleryView.Next` and `GoToPage` keep the page within it |
| `GalleryState.GalleryView.Display` | components/Layout.js:44-45 | the displayed images are the current page's clamped slice of the filtered list, at most one page; nothing on page 0 |
| `GalleryState.GalleryView.FinishLoading` | app/page.js:44-54 | the fetched list becomes the images, or stays empty on failure; loading ends; the search is kept and the page is still 1 |
| `GalleryState.GalleryView.SetSearch` | app/page.js:87-103 | once loading is over (the search box is not rendered before), editing the search sets the term and resets the page to 1 |
| `GalleryState.GalleryView.Prev` | components/Layout.js:53-91 | once loading is over, the page becomes `max(page-1, 1)`, never below 1 |
| `GalleryState.GalleryView.Next` | components/Layout.js:53-107 | once loading is over, the page becomes `min(page+1, totalPages)`, never above the page count; 0 exactly when nothing is filtered |
| `GalleryState.GalleryView.GoToPage` | components/Layout.js:53-101 | once loading is over, the numbered button `i+1` selects page `i+1` |
| `HomePage.Mount` | app/page.js:7-13 | a fresh view with 16 per page, no images, empty search, page 1, loading |
| `HomePage.CheckSession` | app/page.js:38-42 | the page stays exactly when the session is valid; otherwise the token is removed, even an undecodable one |
| `HomePage.SixteenPerPage` | app/page.js:83-85 | shown page is the slice `[(page-1)*16, page*16)`; page count is the ceiling of length/16; the pages concatenate to the filtered list |
| `HomePage.TwentyFiveImages` | app/page.js:84-85 | 25 filtered images give 2 pages of 16 and 9 |
| `HomePage.JohnExampleMatches` | app/page.js:79 | "john" matches "John Doe" and "Johnny" but not "Jane" |
| `HomePage.SearchJohn` | app/page.js:77-81 | searching "john" over John Doe, Jane, Johnny keeps John Doe and Johnny |
| `HomePage.DedupeFirstA` | app/page.js:77-81 | authors A, B, A with an empty search give the first A and the B |
| `LayoutPage.Mount` | components/Layout.js:8-13 | a fresh view with 12 per page, no images, empty search, page 1, loading |
| `LayoutPage.CheckSession` | components/Layout.js:15-21 | the page stays exactly when the session is valid; otherwise the token is removed |
| `LayoutPage.TwelvePerPage` | components/Layout.js:44-46 | shown page is the slice `[(page-1)*12, page*12)`; page count is the ceiling of length/12; the pages concatenate to the filtered list |
| `ImageList.FirstDistinctAuthors` | components/ImageList.js:18-26 | the loop returns the first `min(10, distinct authors)` images of the first-occurrence dedupe, an order-preserving subsequence with one image per author; its `seen` set is the set of kept authors throughout |
| `ImageList.DedupeStep` | components/ImageList.js:21-24 | one step keeps the image exactly when its author is new to the prefix |
| `ImageList.StopWithFirstAuthors` | components/ImageList.js:25 | stopping at ten kept images, or at the end of the list, leaves the first ten (or all) of the dedupe |
| `ImageList.SearchImages` | components/ImageList.js:33-37 | `search ? images.filter(...) : images`; `ImageList.SearchShortcutAgrees` and `ImageList.SearchImagesSpec` state what it returns |
| `ImageList.SearchShortcutAgrees` | components/ImageList.js:33-37 | the empty-term shortcut gives the same list as filtering |
| `ImageList.SearchImagesSpec` | components/ImageList.js:33-37 | an empty search returns the list unchanged; any search keeps exactly the matching images, in order |

## Left out

- HTTP fetches of the image listing (`app/page.js:46`, `components/Layout.js:26`, `components/ImageList.js:14`). The fetched list, or a failure, is an input to `FinishLoading` and `FirstDistinctAuthors`. ImageList's page buttons only change that fetch's URL, so they are not modelled.
- Idle timer, event listeners and the ten-second validity poll (`app/page.js:28-33`, `57-71`). These are event-loop scheduling. The poll runs the same check as `HomePage.CheckSession`.
- Redirects, router calls, alerts, JSX and CSS. `app/login/page.js` and `components/ProtectedRoute.js` only call the store: the login page calls `isTokenValid` (`app/login/page.js:14`) and `loginUser` (`:21`), ProtectedRoute calls `getToken` and `isTokenValid` (`components/ProtectedRoute.js:9-10`). ProtectedRoute's argument to `isTokenValid` is ignored by that function.
- `jwt-simple` signing. `TokenCodec` stands in for it, with an unsigned text format.
- `jwt-simple`'s own expiry check. Its decode throws when `Date.now() > exp * 1000`, reading `exp` as seconds. The source's `catch` (`lib/auth.js:81-82`, `:99-100`) then returns `false`/`null` and keeps the token. With an `exp` in milliseconds this fires only for clocks before 1970 or about a thousand times the issue time. `TokenCodec.Decode` has no such check, and the model's `now: int` allows such clocks. There the source reports no session and keeps the token. Before 1970, `Auth.CredentialStore.IsTokenValid` and `GetCurrentUser` can instead report the fresh session live. At the later clocks, they and `Auth.ExpiryRoundTrip` remove the expired token.
- Tokens that `loginUser` did not produce: `TokenCodec.Decode` rejects every one of them, including a payload with no numeric `exp`. The source accepts any payload signed with its client-side key, and never expires one without a numeric `exp`.
- JSON encoding of the "users" key. The sequence is held directly.
- The `isBrowser` guard. A browser is assumed, so the server-side `false`/`null` returns are not modelled.
- `getToken`'s `catch`: reading storage is assumed not to throw.
- Text.ToLower: lowers ASCII letters only. Unicode case mapping is not modelled.
- Gallery.TotalPages: `Math.ceil` of a floating-point quotient is written as integer `(n + k - 1) / k`. The two agree for list lengths well below 2^53.
- `Date.now()` is the parameter `now`.
