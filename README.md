# apis-catalog review pipeline, in Dafny

This project models the review pipeline of the apis-catalog server. The server catalogues OpenAPI
specifications and watches the pull requests that change them on a Bitbucket Server ("stash").
The model covers the part of `server/src/app/apis.rs` that carries logic:

- **`Text`** (`text.dfy`) — the Rust string primitives the classifier relies on: `trim_start`
  (Unicode White_Space, written out), `starts_with`, and `eq_ignore_ascii_case`.
- **`ApiStatus`** (`status.dfy`) — `Status` and its string codec, `as_str` / `from_str`.
- **`Stash`** (`stash.dfy`):
  - the pull-request records;
  - the outcome of a request to the review system;
  - `get_merged_pr`, which hands the merged listing through.
- **`DiffClassifier`** (`classifier.dfy`) — the nested loops of `list_all_reviews`:
  - They walk a pull request's diff tree: file, hunk, segment, line.
  - They keep the lines of ADDED or REMOVED segments (ignoring ASCII case) whose left-trimmed text
    starts with `/`, `x-zally-ignore`, `x-has-authority` or `x-audience`, tested in that order.
  - Each kept line is tagged PATH, ZALLY, PERMISSION or AUDIENCE.
  - The loops are the method `CollectDiffs`, proved equal to the specification function
    `ResponseDiffs`. That function is a selection over the traversal order; its properties are
    proved as lemmas.
- **`Reviews`** (`reviews.dfy`) — the per-pull-request loop of `list_all_reviews`:
  - It lists the open pull requests, fetches each one's diff, classifies it, and pushes a
    `Review(id, title, diffs)`.
  - The method `ListAllReviews` is proved equal to the function `AllReviews`.
- **`Oldest`** (`oldest.dfy`) — `get_oldest_pr`:
  - the age in seconds (milliseconds divided by 1000, subtracted from the clock);
  - a stable sort by descending age;
  - the first three kept.

External effects are parameters:

- **The listing request** `pull-requests?state=…&limit=1000` is a function `PageSource` from the
  state string to the decoded page, or a failure.
- **The diff request** `pull-requests/<id>/diff` is a function `DiffSource` from the pull
  request's id. The URL depends only on the id.
- **The clock** is the argument `now`, in seconds.
- **A failing `send().unwrap()` or `json().unwrap()`** is a panic that ends the handler. It is
  modelled as a `Failed` result of the whole operation.

## Model

| member | source | states |
|---|---|---|
| ApiStatus.AsStr | server/src/app/apis.rs:126-133 | the encoding is one of the four names, and it is "NONE" exactly for NONE |
| ApiStatus.FromStr | server/src/app/apis.rs:135-142 | a decoded non-NONE status re-encodes to the input string; any string other than the three literals decodes to NONE |
| ApiStatus.FromStrAsStr | server/src/app/apis.rs:126-142 | encoding then decoding a status gives it back, for all four statuses |
| ApiStatus.AsStrInjective | server/src/app/apis.rs:126-133 | distinct statuses are stored as distinct strings |
| ApiStatus.AsStrFromStr | server/src/app/apis.rs:126-142 | a string survives decode-then-encode exactly when it is one of the four names |
| Stash.MergedPullRequests | server/src/app/apis.rs:331-338 | the merged listing's values unchanged when the MERGED listing succeeds, its error otherwise |
| Text.LeadingWhitespace | server/src/app/apis.rs:459 | the count of leading whitespace is within the string, covers only whitespace and stops at the first non-whitespace character |
| Text.TrimStartSkipsWhitespace | server/src/app/apis.rs:459 | prepending any whitespace does not change the left-trimmed text |
| Text.TrimStartIdempotent | server/src/app/apis.rs:459 | trimming the start twice is trimming once |
| Text.EqIgnoreAsciiCaseAt | server/src/app/apis.rs:455-456 | the case-insensitive comparison holds iff the lengths are equal and every position agrees after ASCII lowering |
| Text.EqIgnoreAsciiCaseIsLowercaseEquality | server/src/app/apis.rs:455-456 | the case-insensitive comparison holds iff the ASCII-lowercased strings are equal |
| DiffClassifier.ChangeTypeIgnoresCase | server/src/app/apis.rs:455-456 | a segment is classified iff its type lowercases to "added" or "removed" |
| DiffClassifier.CategorizeChain | server/src/app/apis.rs:459-486 | the priority search over the marker list equals the source's four-way else-if chain on the trimmed text |
| DiffClassifier.LineDiffsChain | server/src/app/apis.rs:459-491 | in a change segment, a line contributes exactly the Diff that the else-if chain pushes (segment type, category, untrimmed text), or nothing |
| DiffClassifier.LineDiffs | server/src/app/apis.rs:455-491 | a line contributes at most one Diff, and that Diff carries the segment's type and the line's untrimmed text |
| DiffClassifier.MarkersExclusive | server/src/app/apis.rs:459-486 | no text starts with two different markers, so the order of the tests never changes the category |
| DiffClassifier.CategorizeByMarker | server/src/app/apis.rs:459-486 | a line gets category c iff its left-trimmed text starts with c's marker |
| DiffClassifier.CategorizeNone | server/src/app/apis.rs:459-491 | a line is dropped iff its trimmed text starts with none of the four markers |
| DiffClassifier.LeadingWhitespaceIgnored | server/src/app/apis.rs:459 | leading whitespace never changes a line's category |
| DiffClassifier.UnchangedSegmentIsSilent | server/src/app/apis.rs:455-456 | a segment that is neither ADDED nor REMOVED contributes nothing, whatever its lines say |
| DiffClassifier.AppendSegment | server/src/app/apis.rs:455-494 | the segment loop body appends to `diffs` exactly the selection of that segment's tagged lines |
| DiffClassifier.CollectDiffs | server/src/app/apis.rs:452-497 | the four nested loops produce exactly `ResponseDiffs`: the selection over all lines in file/hunk/segment/line order |
| DiffClassifier.SelectAppend | server/src/app/apis.rs:452-497 | the report of a concatenation of lines is the concatenation of the reports, so output order follows traversal order |
| DiffClassifier.LineDiffsEmits | server/src/app/apis.rs:455-491 | a line contributes d iff it is in a change segment, d carries the segment type and untrimmed text, and the line's category is d's |
| DiffClassifier.SelectSound | server/src/app/apis.rs:452-497 | every reported Diff is emitted by some line of the traversal |
| DiffClassifier.SelectComplete | server/src/app/apis.rs:452-497 | every Diff emitted by a line of the traversal is reported |
| DiffClassifier.SelectMembership | server/src/app/apis.rs:452-497 | a Diff is reported iff some line of the traversal emits it |
| DiffClassifier.SelectBound | server/src/app/apis.rs:452-497 | the report holds at most one Diff per line of a change segment, and so no more than the number of lines |
| DiffClassifier.CountChanged | server/src/app/apis.rs:455-456 | the number of lines in change segments is at most the number of lines |
| DiffClassifier.CategorizePathExample | server/src/app/apis.rs:459-465 | "/pets" is a PATH line |
| DiffClassifier.CategorizeAudienceExample | server/src/app/apis.rs:480-486 | "x-audience: public" is an AUDIENCE line |
| DiffClassifier.CategorizeOtherExample | server/src/app/apis.rs:487-491 | "no-op" is dropped |
| DiffClassifier.SingleSegmentTree | server/src/app/apis.rs:452-497 | a diff tree with one file, one hunk and one segment reports exactly that segment's selection |
| DiffClassifier.ThreeLineSegment | server/src/app/apis.rs:452-497 | a change segment whose first two lines are recognised and third is not reports the first two, in order, with their categories and untrimmed text |
| DiffClassifier.AddedSegmentExample | server/src/app/apis.rs:452-497 | one ADDED segment with "/pets", "x-audience: public", "no-op" yields a PATH Diff then an AUDIENCE Diff |
| Reviews.AllReviews | server/src/app/apis.rs:430-436 | a failed open listing fails the report with its error; otherwise the report is the fail-fast reviews of the listed pull requests |
| Reviews.ListAllReviews | server/src/app/apis.rs:424-512 | the handler's loop gives exactly `AllReviews`: one review per open pull request in listing order, or the first failure |
| Reviews.ReviewsForSucceeds | server/src/app/apis.rs:436-506 | the report succeeds iff every diff fetch succeeds; then it has one review per pull request, in order, with its id, title and classified diffs |
| Reviews.ReviewsForFailsFast | server/src/app/apis.rs:436-449 | a failed report carries the error of the first pull request whose diff fetch failed; all earlier fetches succeeded |
| Oldest.Age | server/src/app/apis.rs:310-318 | the age never exceeds the clock; for a past creation time it is the elapsed seconds and agrees with the subtraction as written; for a future one it is zero |
| Oldest.WithAges | server/src/app/apis.rs:305-322 | each pull request is paired, in order, with its own age |
| Oldest.WithWrappingAges | server/src/app/apis.rs:305-322 | each pull request is paired, in order, with its age as the source subtracts it |
| Oldest.Take | server/src/app/apis.rs:324 | the first `limit` elements, or all of them when there are fewer |
| Oldest.Prs | server/src/app/apis.rs:324 | the pull requests of the pairs, in the same order |
| Oldest.OldestPullRequests | server/src/app/apis.rs:296-328 | a failed open listing fails with its error; otherwise the result is the ranking of the listed pull requests at time `now` |
| Oldest.InsertElements | server/src/app/apis.rs:323 | inserting adds exactly one element and keeps every other one |
| Oldest.InsertKeepsOrder | server/src/app/apis.rs:323 | inserting into a sequence sorted by descending age keeps it sorted |
| Oldest.SortOrdersAndPermutes | server/src/app/apis.rs:323 | the sort yields descending ages and is a permutation of its input |
| Oldest.InsertOfAge | server/src/app/apis.rs:323 | inserting puts the new pair ahead of all pairs of the same age |
| Oldest.SortIsStable | server/src/app/apis.rs:323 | the sort is stable: the pairs of any one age keep their input order |
| Oldest.OfAgeOfPrefix | server/src/app/apis.rs:324 | taking a prefix keeps the pairs of each age in order |
| Oldest.PrefixDominates | server/src/app/apis.rs:323-324 | in a sorted sequence, every pair of a prefix is at least as old as every pair after it |
| Oldest.SortedAgesMatch | server/src/app/apis.rs:305-323 | after the sort every pair still carries its own pull request's age |
| Oldest.OldestRanked | server/src/app/apis.rs:297-324 | the report holds min(3, n) pull requests, kept with their ages, oldest first |
| Oldest.OldestAreTheOldest | server/src/app/apis.rs:323-324 | the kept pull requests are among the listed ones, and none left out is older than one kept |
| Oldest.OldestKeepsListingOrder | server/src/app/apis.rs:323-324 | pull requests of equal age are reported in listing order |
| Oldest.AsWrittenAgreesOnValidInput | server/src/app/apis.rs:310-318 | when no creation time is in the future, the ranking as written and the corrected one are identical |
| Oldest.FutureCreationOutranksAsWritten | server/src/app/apis.rs:318 | as written, a creation time in the future wraps to an age above every real one; the corrected age ranks it no older |
| Oldest.FutureCreationListedFirst | server/src/app/apis.rs:310-324 | with the clock at 1 700 000 000 s, a pull request stamped one second ahead comes first as written and last as corrected |

## Left out

- HTTP, authentication, settings and JSON decoding are not modelled. Requests are the function parameters `PageSource` and `DiffSource`.
- The listing's `limit=1000` and the URL formats are kept only as text. The model does not follow `isLastPage` because the source does not either.
- The logging calls (`info!`, `debug!`, `error!`) and the `HttpResponse` JSON wrapping are not modelled.
- `get_endpoints`, `get_all_specs`, the catalog CRUD handlers, the DAO modules and `main.rs` are not part of this model.
- `Status` is modelled only through `as_str` and `from_str`. It has no persistence.
- Oldest.SortByAgeDescending: models `sort_by` (a library merge sort that works in place on a `Vec`) by its result, as a stable insertion sort on a sequence. Aliasing and the intermediate states of the vector are not modelled.
- Oldest.OldestPullRequests: reads the clock as the parameter `now` (seconds, already truncated by `as_secs`).
- Oldest.OldestRanked: uses the corrected age (see Findings). As written, a future creation time either panics on u64 underflow (debug build) or wraps (release build). `WrappingAge` models the release build only; the debug-build panic is not modelled.
- Reviews.ListAllReviews: a failing fetch or decode is the `Failed` result of the whole report. In the source it is a panic of the request handler, so no partial report leaves the server either way.
- Text.IsWhitespace: lists the Unicode White_Space characters explicitly. Strings are sequences of Unicode scalar values, with no encoding.
- Text.AsciiLower: like Rust, folds only 'A'..'Z'. No Unicode case folding happens in the source either.
- Stash.MergedPullRequests: hands the listing through untouched, as the source does, so its contract restates the pass-through.

## Findings

| source | as written | input that shows it | evidently intended | confidence | as-written member | corrected member |
|---|---|---|---|---|---|---|
| server/src/app/apis.rs:310-318 | logs when the creation time lies past the clock, then computes `current_epoch - created_epoch_in_sec` on u64 anyway: an underflow panic in debug builds, a wrap to about 2^64 in release builds | clock 1 700 000 000 s, one pull request created at 1 000 000 000 000 ms, another at 1 700 000 001 000 ms: as written the second gets age 2^64 − 1 and is listed first | a future creation time counts as age 0, and the pull request ranks as the newest | not executed | Oldest.FutureCreationListedFirst | Oldest.Age |

The documented behaviour of the service is exactly this zero-age fallback, while the code only logs the anomaly. The ranking in this model (`Oldest.OldestOf`, and hence `Oldest.OldestRanked`, `Oldest.OldestAreTheOldest` and `Oldest.OldestKeepsListingOrder`) uses the corrected `Oldest.Age`. `Oldest.AsWrittenAgreesOnValidInput` shows that the two rankings coincide whenever no creation time is in the future. `Oldest.FutureCreationOutranksAsWritten` generalises the counterexample to every future creation time when the clock is below 2^63.
