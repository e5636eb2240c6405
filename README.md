# Author cards: related-author ranking, biography cache and modal state

This project models the author-detail modal of the intellectual-map web page
(`js/author-cards.js`) and proves properties of that model in Dafny. The modal
shows one "bridge author": their works, their domain badges (one primary
problem domain followed by their bridge domains), the authors most related to
them, and a Wikipedia summary. The summary is cached in the browser's session
storage.

The model has five modules:

- `Text` (`text.dfy`): JavaScript's `includes`, `split` on one character and
  `join`, on strings as `seq<char>`. It proves that joining a split gives the
  input back, and what `split('.').slice(0, -1).join('.')` keeps.
- `Categories` (`categories.dfy`): the category records in `Object.entries`
  order, `findAuthorCategory` with its empty-list defaults, and the domain
  list of `populateDomains`.
- `Ranking` (`ranking.dfy`): the specification of `calculateRelatedAuthors`.
  It covers the four scoring rules, the reason strings with their substring
  de-duplication, the candidate list, and the stable sort by score (highest
  first), with lemmas about each.
- `Biography` (`biography.dfy`): the 600-character truncation, the
  `wikipedia_bio_<page_id>` cache key, what a cache lookup counts as a hit,
  and what a successful fetch writes.
- `AuthorCards` (`author_cards.dfy`): the module's mutable state as a class.
  It holds the loaded datasets, `currentAuthor`, the biography paragraph, and
  a reference to a `SessionStorage` object. Methods cover the related-author
  loop (proved equal to the `Ranking` specification), opening and closing the
  modal, the Escape key, and the two halves of the biography load: the
  synchronous cache check, and the continuation after `await fetch`.

The Wikipedia request is an input: `FetchOutcome` is `Success(extract)` or
`Failure`. It is handed to `CompleteBioFetch`, which can be called at any point
after `LoadWikipediaBio` reported that it sent a request. Session storage is a
`map<string, string>` field of `SessionStorage`.

Behaviour of the code as written, and how the model keeps it:

- A long extract with no '.' in its first 600 characters becomes exactly
  ".". The split leaves one part, `slice(0, -1)` drops it, and only the
  appended '.' remains. It does not become the 600-character prefix plus a '.'.
- Shared bridge labels are counted once per occurrence in the subject's
  list, duplicates included, so the score is not symmetric
  (`Ranking.DuplicateBridgesCounted`).
- A cached empty string is a miss (`if (cached)`). An author whose extract is
  empty is therefore fetched again on every opening (`Biography.WarmCacheHit`).
- A fetch that resolves after the modal was closed, or after another author
  was opened, still writes the cache and shows its result. Nothing compares
  it with `currentAuthor` (`AuthorCards.AuthorCards.CompleteBioFetch`).
- Escape closes the modal only when `currentAuthor` is truthy, so an open
  author whose key is the empty string is not closed by Escape.
- The "Connected via X" reason is dropped when an earlier reason contains X
  as a substring. The rule's 2 points are still added.

## Model

| member | source | states |
|---|---|---|
| `Text.Split` | js/author-cards.js:306 | `split('.')` always yields at least one part, and no part contains the separator |
| `Text.Join` | js/author-cards.js:242 | `join(sep)`: the parts with the separator between neighbours; its behaviour is fixed by `Text.SplitJoin` and `Text.JoinSnoc` |
| `Text.SplitJoin` | js/author-cards.js:306 | joining the parts of a split with the same separator gives the original string |
| `Text.SplitDropLast` | js/author-cards.js:306 | with more than one part, the parts without the last, joined and followed by the separator and the last part, rebuild the string |
| `Text.SplitSingle` | js/author-cards.js:306 | a split into a single part returns the whole string, which then has no separator |
| `Text.JoinSnoc` | js/author-cards.js:306 | joining more than one part is joining all but the last, then the separator, then the last |
| `Text.Includes` | js/author-cards.js:254 | `c.includes(x)` as a left-to-right search for `x` at each position of `c`; its meaning is fixed by `Text.IncludesOccurs` |
| `Text.IncludesOccurs` | js/author-cards.js:254 | a string includes another exactly when the other occurs in it as a contiguous block at some index |
| `Text.IncludesSuffix` | js/author-cards.js:254 | a reason string "…X" includes X, which is what makes the substring de-duplication fire |
| `Text.AnyIncludes` | js/author-cards.js:254 | `connections.some(c => c.includes(otherPrimary))`: some reason includes the label; `Ranking.ConnectedViaListed` and `Ranking.ConnectedViaSuppressedBySharedPrimary` state how it gates the fourth reason |
| `Categories.Normalize` | js/author-cards.js:122-126 | the primary label is kept; absent bridges and works become empty lists, present ones are kept |
| `Categories.FindAuthorCategory` | js/author-cards.js:117-127 | the result is absent exactly when no entry has the key; with unique keys it is the normalised record stored under the key |
| `Categories.BridgeDomains` | js/author-cards.js:175-180 | one bridge badge per bridge label, in order |
| `Categories.Domains` | js/author-cards.js:166-180 | the badge list is the primary badge followed by one bridge badge per bridge label, in order, duplicates kept |
| `Ranking.SharedBridges` | js/author-cards.js:239 | a label is shared exactly when both lists have it; each occurrence in the subject's list counts once |
| `Ranking.SharedBridgesAppend` | js/author-cards.js:239 | the filter works label by label: the shared labels of a concatenation are those of the first part followed by those of the second, so the kept labels stay in the subject's order |
| `Ranking.SharedBridgesSingle` | js/author-cards.js:239 | a single label is kept exactly when the other author also has it |
| `Ranking.BothWorkIn` | js/author-cards.js:235 | the reason string "Both work in X" for the shared primary X |
| `Ranking.BridgeTo` | js/author-cards.js:242 | the reason string "Bridge to " followed by the shared labels joined with ", " |
| `Ranking.BridgesTo` | js/author-cards.js:248 | the reason string "Bridges to X" for the subject's primary X |
| `Ranking.ConnectedVia` | js/author-cards.js:255 | the reason string "Connected via X" for the other author's primary X |
| `Ranking.PrimaryReason` | js/author-cards.js:233-236 | the first rule's push: "Both work in X" exactly when the primaries agree, else nothing |
| `Ranking.SharedReason` | js/author-cards.js:239-243 | the second rule's push: one "Bridge to …" reason exactly when some label is shared, else nothing |
| `Ranking.BridgesReason` | js/author-cards.js:246-249 | the third rule's push: "Bridges to X" exactly when the subject's primary X is among the other's bridges, else nothing |
| `Ranking.Score` | js/author-cards.js:232-253 | the sum of the four rules' points: 3 for equal primaries, 2 per shared label occurrence, 2 for each of the two cross-bridge rules; the contract states that it is never negative, and `Ranking.ScorePositive` and `Ranking.ScoreParity` characterise it |
| `Ranking.EarlyReasons` | js/author-cards.js:232-248 | at most three reasons, and none exactly when the primaries differ, nothing is shared and the subject's primary is not among the other's bridges |
| `Ranking.Reasons` | js/author-cards.js:232-257 | the reasons of the first three rules in push order, followed by at most one more |
| `Ranking.Candidate` | js/author-cards.js:260-264 | the pushed record: the entry's key, its score and its reasons, the reasons kept as a sequence rather than joined |
| `Ranking.SharedBridgesEmpty` | js/author-cards.js:239-242 | nothing is shared exactly when no subject bridge label is among the other's bridges |
| `Ranking.ScorePositive` | js/author-cards.js:232-259 | the score is never negative; it is positive exactly when one of the four rules applies; when the fourth rule applies the score is at least 2 plus 2 per shared label |
| `Ranking.ScoreParity` | js/author-cards.js:232-253 | the score is odd exactly when the primaries agree, and then it is at least 3 |
| `Ranking.ConnectedViaNotEarly` | js/author-cards.js:232-249 | no reason of the first three rules is a "Connected via" reason |
| `Ranking.ConnectedViaListed` | js/author-cards.js:251-257 | "Connected via X" is listed exactly when X is one of the subject's bridges and no earlier reason includes X |
| `Ranking.ConnectedViaSuppressedBySharedPrimary` | js/author-cards.js:232-257 | when the primaries agree and the other's primary is one of the subject's bridges, "Connected via" is dropped while the score is still at least 5 |
| `Ranking.ReasonsIffScore` | js/author-cards.js:226-265 | a candidate has a reason exactly when it scores, and never more than four reasons |
| `Ranking.Step` | js/author-cards.js:224-265 | one loop pass pushes at most one connection, only for an entry other than the subject, keyed by that entry and with a positive score |
| `Ranking.Candidates` | js/author-cards.js:223-266 | the `scores` list after the loop has visited a prefix of the entries; characterised by `Ranking.CandidatesMembership` and `Ranking.CandidatesLength` |
| `Ranking.Scores` | js/author-cards.js:224-259 | the push condition: the entry is not the subject, and the connection is its scoring with a positive score |
| `Ranking.CandidatesSnoc` | js/author-cards.js:223-266 | one more loop pass appends exactly what that entry contributes |
| `Ranking.StepScores` | js/author-cards.js:224-265 | an entry contributes a connection exactly when it is not the subject and scores positively |
| `Ranking.CandidatesMembership` | js/author-cards.js:223-266 | a connection is a candidate exactly when it is the scoring of a non-subject dataset entry with a positive score |
| `Ranking.CandidatesSound` | js/author-cards.js:223-266 | every candidate is the scoring of some non-subject entry with a positive score |
| `Ranking.CandidatesComplete` | js/author-cards.js:223-266 | every non-subject entry with a positive score yields a candidate |
| `Ranking.CandidatesLength` | js/author-cards.js:223-266 | there are never more candidates than dataset entries |
| `Ranking.InsertByScore` | js/author-cards.js:269 | inserting into the sorted list adds exactly one element |
| `Ranking.SortByScore` | js/author-cards.js:269 | the sort keeps the length of its input; `Ranking.SortPermutation`, `Ranking.SortSorted` and `Ranking.SortWithScore` fix its output |
| `Ranking.InsertPermutation` | js/author-cards.js:269 | inserting adds exactly one element |
| `Ranking.SortPermutation` | js/author-cards.js:269 | the sort is a permutation of its input |
| `Ranking.InsertBounded` | js/author-cards.js:269 | inserting into a list whose scores are all at most a bound, an element within the bound, keeps every score within it |
| `Ranking.InsertSorted` | js/author-cards.js:269 | inserting into a list sorted by descending score keeps it sorted |
| `Ranking.SortSorted` | js/author-cards.js:269 | the sort's output is in non-increasing score order |
| `Ranking.InsertWithScore` | js/author-cards.js:269 | for every score, the entries with that score after inserting are the new element (if it has that score) followed by the entries with that score before, in their old order |
| `Ranking.SortWithScore` | js/author-cards.js:269 | the sort is stable: for every score, the entries with that score keep their input order |
| `Ranking.Ranked` | js/author-cards.js:217-269 | the ranking: empty without category data, otherwise the candidates sorted by score; characterised by `Ranking.RankedSortedPermutation` and `Ranking.RankedMembership` |
| `Ranking.RankedWithoutCategory` | js/author-cards.js:218 | without category data for the subject the ranking is empty |
| `Ranking.RankedSortedPermutation` | js/author-cards.js:259-269 | the ranking is a permutation of the positive-score candidates, sorted by descending score, with ties in dataset order |
| `Ranking.RankedMembership` | js/author-cards.js:223-265 | a connection is ranked exactly when it scores a non-subject entry positively; the subject never appears and every score is at least 1 |
| `Ranking.SamePrimaryRanked` | js/author-cards.js:233-235 | an author with the subject's primary label is ranked for the subject with at least 3 points |
| `Ranking.PrimarySymmetry` | js/author-cards.js:233-235 | two authors with the same primary label are ranked for each other, both with at least 3 points |
| `Ranking.SamePrimaryOnlyExample` | js/author-cards.js:223-269 | for two authors with the same primary label and different bridges that name neither primary, the ranking of the first is exactly the second, with score 3 and the one reason "Both work in X" |
| `Ranking.SamePrimaryOnlyCandidates` | js/author-cards.js:223-266 | for such a pair the loop over the two entries pushes exactly the second author, with score 3 and the one reason "Both work in X" |
| `Ranking.SamePrimaryOnlyCandidate` | js/author-cards.js:232-257 | for such a pair only the primary rule applies: score 3 and the one reason "Both work in X" |
| `Ranking.DuplicateBridgesCounted` | js/author-cards.js:239-240 | a label the subject lists twice and the other once earns 4 points, while the reverse direction earns 2 |
| `Biography.ExtractText` | js/author-cards.js:302 | a missing extract is the empty string, a present one is kept |
| `Biography.Truncate` | js/author-cards.js:302-307 | at most 600 characters; a short extract is unchanged; a long one becomes a prefix of itself ending in '.' with no '.' after it in the 600-character window, or "." when the window has no '.' |
| `Biography.TruncateEmpty` | js/author-cards.js:305-307 | the truncation is empty only for an empty extract |
| `Biography.CacheKey` | js/author-cards.js:277 | the key is `wikipedia_bio_` followed by the page id |
| `Biography.CacheKeyInjective` | js/author-cards.js:277 | different page ids give different keys, and every key carries the prefix |
| `Biography.CachedBio` | js/author-cards.js:278-283 | a lookup hits exactly when the key is stored with a non-empty value, and yields that value |
| `Biography.CacheAfterSuccess` | js/author-cards.js:310 | a success stores the truncation under the page's key and leaves every other key alone; the 600-character bound of cached biographies is kept |
| `Biography.WarmCacheHit` | js/author-cards.js:277-310 | after a successful fetch the next lookup hits with the truncation, unless the extract was empty |
| `Biography.OtherPagesUnaffected` | js/author-cards.js:277-310 | a fetch for one page leaves the lookup of every other page unchanged |
| `AuthorCards.DisplayName` | js/author-cards.js:202 | the author's full name when it is known and non-empty, else the key |
| `AuthorCards.RelatedCards` | js/author-cards.js:198-203 | the first three ranked authors (fewer when fewer exist), in ranking order, with display names and reasons |
| `AuthorCards.ScoreCandidate` | js/author-cards.js:226-257 | applying the four rules one after another yields the specified score and reasons of that candidate |
| `AuthorCards.SessionStorage.constructor` | js/author-cards.js:278-310 | the browser's `sessionStorage`, read at the cache check and written after a successful fetch, starts empty |
| `AuthorCards.Truthy` | js/author-cards.js:77 | `currentAuthor` is truthy exactly when an author is open and its key is not the empty string |
| `AuthorCards.AuthorCards.constructor` | js/author-cards.js:5-7 | the loaded datasets are stored, no author is open, and the biography paragraph is blank |
| `AuthorCards.AuthorCards.CalculateRelatedAuthors` | js/author-cards.js:217-270 | the loop's result is the specified ranking of the current dataset |
| `AuthorCards.AuthorCards.ModalBody` | js/author-cards.js:142-215 | there is a body exactly when the author has a category record; it holds that record's works, its domain badges, the ranking of the current dataset and the cards for it |
| `AuthorCards.AuthorCards.BioOnOpen` | js/author-cards.js:277-291 | the paragraph shows either "Loading" or text; it is "Loading" exactly when the cache lookup misses; shown text is the non-empty cached value, within 600 characters when the cache is bounded |
| `AuthorCards.AuthorCards.LoadWikipediaBio` | js/author-cards.js:272-291 | a non-empty cached biography is shown and no request is sent; otherwise "Loading" is shown and a request is sent; a shown biography is at most 600 characters |
| `AuthorCards.AuthorCards.CompleteBioFetch` | js/author-cards.js:293-318 | on success exactly the truncation is cached and shown; on failure the cache is unchanged and the error shows the author's Wikipedia URL; the open author is neither read nor changed |
| `AuthorCards.AuthorCards.OpenAuthorModal` | js/author-cards.js:83-108 | an unknown key changes nothing and reports not found; a known key becomes the open author, with its body (works, domains, ranking, top three cards) or none without category data, and the biography lookup |
| `AuthorCards.AuthorCards.CloseAuthorModal` | js/author-cards.js:110-115 | no author is open afterwards |
| `AuthorCards.AuthorCards.OnKeyDown` | js/author-cards.js:76-80 | Escape closes the modal exactly when the open author's key is truthy; every other key changes nothing |
| `AuthorCards.ReopenUsesCache` | js/author-cards.js:272-313 | open, a successful non-empty fetch, close, and open again: the second open sends no request and the author is open |

## Left out

- DOM querying, `innerHTML` templating, `classList` toggling and listener
  wiring (the close button, the backdrop click and the related-card clicks
  all end in `CloseAuthorModal` or `OpenAuthorModal`). The "no related authors
  found" text and the HTML of the badges are presentation.
- The bootstrap (`init`, `loadAuthorsData`, `loadProblemCategories`,
  `Promise.all`): the constructor takes the two loaded datasets. In the code,
  if either load fails then no listener is installed at all, so there is no
  degraded mode to model.
- `console.log` and `console.error` calls.
- The HTTP request, its URL with `encodeURIComponent`, and JSON parsing:
  these are the abstract `FetchOutcome`.
- Asynchronous interleaving: `CompleteBioFetch` may run after any other
  operation. The model does not track outstanding requests, so it neither
  suppresses late results nor de-duplicates requests, and neither does the code.
- AuthorCards.AuthorCards.CompleteBioFetch: does not model `sessionStorage.setItem`
  throwing (a full quota), which the code's `catch` would turn into the error view.
- AuthorCards.AuthorCards.LoadWikipediaBio: does not model the early return when the
  page has no biography container.
- AuthorCards.AuthorCards.OpenAuthorModal: when the author has no category record, the
  code leaves the previous author's works, domains and related list on the
  page. The model reports "no body" and does not track the earlier page contents.
- The separator that joins reasons into one string (garbled in the source):
  reasons stay a sequence.
- A category record without `primary_problem`: the primary label is always a string here.
- String lengths are counted in characters, not UTF-16 code units, so an
  extract with characters outside the Basic Multilingual Plane may be cut at
  a different position than in the browser.
- Object-key lookups that would find inherited properties (`authorsData["constructor"]`):
  the datasets are plain maps and sequences.
- AuthorCards.AuthorCards.constructor: requires that every biography already in session storage
  fits the 600-character budget, which holds for entries written by this code.
- `src/create_network_viz.py` is not part of this model. It is graph
  construction, plotting and file output.
