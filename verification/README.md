# Book catalogue with reactions and a derived rating

A Dafny model of the core of a small Django/DRF book catalogue. It has books (name,
price, author, publication flag, optional owner, derived rating) and reaction rows
linking a user to a book (like, bookmark, optional rate 1..5). The schema allows
several rows for one (user, book); only the reaction endpoint's get-or-create lookup
keeps one row per pair. The model covers:

- **Rating** (`store/logic.py`, `store/models.py`): a book's rating is the mean of
  the rates its reactions carry. Reactions without a rate are left out. With no rate
  at all the rating is absent. Saving a reaction stores the row and then recomputes
  the rating of the row's book. The mean is kept exact, as a (sum, count) pair.
  Rounding to hundredths is a separate function.
- **Two-decimal values** (`Decimals`): round-half-up to hundredths, the "d.dd" text
  form of prices, rates and ratings, and its read-back.
- **Listing** (`store/views.py`): every book gets its like count and its live mean
  rate. Then come the exact price filter, a case-insensitive search on name or author,
  and an ordering by price (an insertion sort). Ties are broken by ascending id, the
  order the listing test compares against.
- **Authorisation**: the policy class is not part of this model. `Permissions.Pinned`
  holds only the decisions the API tests fix. Every book operation (create, update,
  delete) takes the policy as a parameter, and lemmas require that it agrees with
  `Pinned`. The reaction endpoint has the fixed rule that the requester be
  authenticated: an anonymous request is refused.
- **Representation** (`store/serializers.py`): the fields a client sees of a book and
  of a reaction.
- **Store** (`Store`): the tables as a value `Db`, and each request as a function from
  old tables to new ones. The requests are get-or-create on reactions, the reaction
  PATCH, and book create, update and delete, plus deleting a user. The class
  `Store.Catalogue` holds the same tables as fields and performs each operation in
  place, proved equal to the function.

Three invariants, and the operations proved to keep them:

- `Valid`: ids increase; owners, reacting users and reacted books exist. Kept by the
  reaction lookup and PATCH, by book create, update and delete, and by deleting a user.
- `RatingsCurrent`: every stored rating equals the mean of its book's rates. Kept by
  the same requests, but not by deleting a user: the cascade does not save, so no
  rating is recomputed (`Store.DeleteUserLeavesStaleRating`).
- `Unique`: at most one reaction row per (user, book). Kept by the same requests and
  by deleting a user. The schema does not demand it, so rows saved directly can break
  it (`Store.DirectCreateMakesLookupAmbiguous`).

These claims are about the corrected serializers. As written, a writable `rating`
breaks `RatingsCurrent` and a writable reaction `book` breaks `RatingsCurrent` and
`Unique` (see Findings).

In three places the model follows the code where a reader might expect otherwise:

- An anonymous create that the policy lets through stores nothing and reports no
  error. The view saves only for an authenticated user.
- The reaction serializer also accepts `book`, and the book serializer accepts
  `rating`. Both are listed under Findings.
- The rating column rounds to two places. The model stores the exact mean; every
  rendering rounds it the same way.

## Model

| member | source | states |
|---|---|---|
| Decimals.Round2 | store/serializers.py:16 | the result is the mean rounded to the nearest hundredth, a half rounding up: 2·h·count ≤ 200·total + count < 2·h·count + 2·count |
| Decimals.RoundedRatingFits | store/models.py:38-44 | a mean of rates 1..5 rounds to a value from 1.00 to 5.00, which the 3-digit rating column holds |
| Decimals.NatDigits | store/models.py:12-16 | the decimal digits of a number: at least one, all digits |
| Decimals.DigitsRoundTrip | store/models.py:12-16 | reading the digits of n back gives n |
| Decimals.TwoDigitsValue | store/models.py:12-16 | the two decimals (leading zero kept) read back as the value |
| Decimals.Unsigned2 | store/models.py:12-16 | hundredths are written as the whole units without leading zeros, a point and exactly two decimals |
| Decimals.Fixed2 | store/models.py:12-16 | a signed value is written with a point three characters from the end and two digits after it; a minus sign exactly for negatives, followed by the unsigned form |
| Decimals.Unsigned2RoundTrip | store/models.py:12-16 | the unsigned two-decimal text reads back as the same number of hundredths |
| Decimals.Fixed2RoundTrip | store/models.py:12-16 | a price written with two decimals reads back as the same price, negatives included |
| Decimals.ColumnWidth | store/models.py:12-16 | a value that fits a column of d digits (2 after the point) is written with at most d digits, a point and a sign |
| Decimals.ColumnsWidths | store/models.py:38-44 | a price that fits takes at most 7 digits and a rating at most 3, each plus point and sign |
| Decimals.RenderMean | store/serializers.py:16 | an absent rate or rating stays absent (null); a present one reads back as the mean rounded to hundredths |
| Rating.OfBook | store/logic.py:7 | the rows kept for a book are exactly the rows whose book it is |
| Rating.OfBookCounts | store/logic.py:7 | each row of the book is kept as often as it occurs in the table, and no other row is kept |
| Rating.RatesOf | store/logic.py:7 | a book has no more rates than there are rows |
| Rating.Sum | store/logic.py:7 | a sum of k rates lies between k and 5k |
| Rating.MeanRate | store/logic.py:7 | a present mean total/count lies in [1, 5], since every rate does |
| Rating.NoMeanIffNoRate | store/logic.py:7 | the mean is absent exactly when no row of the book carries a rate, so no rates give null and not 0 |
| Rating.MeanRateAppend | store/models.py:88-91 | storing one more row changes a book's mean only if the row is about that book and has a rate; a null rate is not a zero |
| Rating.RatesOfOwnRows | store/logic.py:7 | a book's rates come from its own rows alone |
| Rating.SameRowsSameMean | store/logic.py:7 | two tables with the same rows for a book give it the same mean, so other books' rows do not count |
| Rating.OfBookUpdateElsewhere | store/models.py:88-91 | overwriting a row that is not about a book leaves that book's rows unchanged |
| Rating.WithoutBook | store/models.py:65-70 | the rows a deleted book leaves behind are exactly the rows of the other books |
| Rating.WithoutUser | store/models.py:59-64 | the rows a deleted user leaves behind are exactly the rows of the other users |
| Rating.WithoutBookCounts | store/models.py:65-70 | a deleted book's rows go and every other row stays, as often as it occurs |
| Rating.WithoutUserCounts | store/models.py:59-64 | a deleted user's rows go and every other row stays, as often as it occurs |
| Domain.NewReaction | store/models.py:71-83 | a created row belongs to the given user and book, with no like, no bookmark and no rate |
| Rating.DefaultRowKeepsMeans | store/views.py:40-43 | a row with the defaults carries no rate, so storing it changes no book's mean |
| Rating.OfBookWithoutOtherBook | store/models.py:65-70 | deleting another book's rows leaves a book's rows unchanged |
| Rating.ShownRating | store/serializers.py:22-23 | the rendered rating is null exactly when the mean is absent |
| Rating.ShownRatingFiveFiveFour | store/tests/test_logic.py:20-29 | rates 5, 5, 4 show as "4.67" |
| Rating.ShownRatingFiveFourNone | store/tests/test_serializer.py:96-101 | rates 5, 4 and a row without rate show as "4.50" |
| Rating.ShownRatingThenOne | store/tests/test_serializer.py:103-105 | adding a rate of 1 shows "3.33" |
| Rating.ShownRatingThenFive | store/tests/test_serializer.py:107-110 | rating the unrated row 5 afterwards shows "3.75" |
| Rating.ShownRatingFourThreeNone | store/tests/test_serializer.py:27-29 | rates 4, 3 and a like without rate show as "3.50" |
| Rating.ShownMeanOfFour | store/tests/test_api.py:30-42 | a single rate 4 shows as "4.00" |
| Permissions.Pinned | store/tests/test_api.py:148-250 | reads are allowed; a pinned write has a user; a pinned update or delete allowance is the owner or staff on an unpublished book; a pinned refusal is never staff, and a pinned delete refusal is a non-owner |
| Permissions.OwnerOrStaffUnlessPublished | store/tests/test_api.py:148-250 | reads are allowed to anyone; writes need a user; a non-staff update or delete needs the owner of an unpublished book |
| Permissions.OwnerOrStaffUnlessPublishedAgrees | store/tests/test_api.py:148-250 | owner-or-staff with published books frozen against their owner is one policy consistent with every tested decision |
| Permissions.PublicationMatters | store/tests/test_api.py:209-250 | no policy that agrees with the tests can ignore publication: the owner may update an unpublished book but not a published one |
| Listing.LikeCount | store/views.py:19 | the like count never exceeds the number of the book's rows |
| Listing.LikedAtAppend | store/views.py:19 | one more row adds one liked position exactly when it likes the book |
| Listing.LikeCountCountsLikes | store/views.py:19 | the like count is the number of rows (by position) that are about the book and carry a like |
| Listing.LikeCountAppend | store/views.py:19 | one more row adds one to its book's count when it carries a like, and nothing to any other count |
| Listing.Annotate | store/views.py:18-20 | one row per book, in table order, each carrying its book |
| Listing.Where | store/views.py:24-25 | the kept rows are exactly the rows that pass the filter (exact price or search term), and they are a subsequence of the input: the input order is kept |
| Listing.SubsequenceTransitive | store/views.py:22-25 | filtering twice keeps the input order, as filtering once does |
| Listing.Lower | store/views.py:25 | ASCII and basic Cyrillic capitals land among the small letters, Ё becomes ё, and every other character stays |
| Listing.LowerIdentifiesCase | store/views.py:25 | two characters lower-case alike exactly when they are one letter up to case (a capital and its small letter, Ё and ё, or equal) |
| Listing.LowerStringIdentifiesCase | store/views.py:25 | two strings lower-case alike exactly when they are spelled alike up to case |
| Listing.SearchCaseBlind | store/views.py:25 | terms spelled alike up to case find the same books, and changing only the case of a book's name or author changes no answer |
| Listing.LowerString | store/views.py:25 | lower-casing keeps the length |
| Listing.LowerStringIdempotent | store/views.py:25 | lower-casing twice is lower-casing once |
| Listing.SearchIgnoresCase | store/views.py:25 | lower-casing the term, or the book's name and author, changes no search answer |
| Listing.Contains | store/views.py:25 | the search finds a term exactly when it occurs at some position |
| Listing.Insert | store/views.py:22 | inserting into a price-ordered list keeps it ordered and adds exactly that row |
| Listing.OrderByPrice | store/tests/test_api.py:74-83 | the result is ordered by price, ties by ascending id, and is a permutation of the input |
| Listing.InsertLast | store/views.py:22 | a row that belongs after every row of an ordered list is inserted at its end |
| Listing.OrderOfThree | store/tests/test_api.py:74-83 | three rows already in (price, id) order keep that order |
| Listing.AnnotatedExactly | store/views.py:18-20 | a row is annotated exactly when it is a book of the table with its like count and live mean rate |
| Listing.OrderKeepsRows | store/views.py:22 | ordering neither adds nor drops a row |
| Listing.List | store/views.py:18-25 | no more rows than books; an ordered listing is sorted by (price, id); an unordered one keeps the table order of the annotated books |
| Listing.ListedExactly | store/views.py:18-25 | a book is listed exactly when it passes the price filter AND the search, with its like count and live mean rate |
| Listing.OrderedListing | store/tests/test_api.py:74-83 | an ordered listing is sorted by (price, id) and holds the same rows as the unordered one |
| Listing.ApiListingAnnotations | store/tests/test_api.py:32-42 | in the test catalogue book 2 is listed with 1 like and rate "4.00" |
| Listing.ApiPriceFilter | store/tests/test_api.py:51-61 | price 25.00 selects books 1 and 2, each once, in no claimed order |
| Listing.SearchHitsBook1 | store/tests/test_api.py:63-72 | "Макс" matches book 1 through its author |
| Listing.SearchHitsBook3 | store/tests/test_api.py:63-72 | "Макс" matches book 3 through its name |
| Listing.SearchMissesBook2 | store/tests/test_api.py:63-72 | "Макс" matches neither the name nor the author of book 2 |
| Listing.ApiSearch | store/tests/test_api.py:63-72 | searching "Макс" lists books 1 and 3, each once, in no claimed order |
| Listing.ApiOrdering | store/tests/test_api.py:74-83 | ordering by price lists books 1, 2, 3 |
| Serializers.ReaderFio | store/serializers.py:18 | one reader entry per reaction row of the book, the i-th naming the user of the i-th row |
| Serializers.ReaderFioExactly | store/serializers.py:8-18 | a name pair is listed exactly when some user with a reaction to the book has it, whether or not they liked or rated |
| Serializers.OwnerName | store/serializers.py:17 | the owner's username, or '' for a book without an owner |
| Serializers.RenderBook | store/serializers.py:13-23 | id, name, author and like count are copied; price, rate and rating read back as the price and the rounded means; absent stays absent; the owner shows by username, no owner as ''; the reader list is the book's readers |
| Serializers.RenderReaction | store/serializers.py:29-32 | the representation holds every field of the row but its user, so the row is recovered from it and the user |
| Serializers.ShownPrices | store/tests/test_api.py:143-146 | prices 25 and 55 show as "25.00" and "55.00" |
| Store.IndexOf | store/views.py:17-18 | the position found holds the id, none is found exactly when no book has it, and with increasing ids it is the only one |
| Store.PairCount | store/views.py:40-43 | a pair has no rows exactly when no row has its user and book |
| Store.PairIndex | store/views.py:40-43 | the row found belongs to the pair, and none is found exactly when the pair has no rows |
| Store.UniqueAtMostOne | store/models.py:50-83 | with unique rows no pair has two |
| Store.Recalc | store/logic.py:6-9 | the book's rating becomes the mean of its rates; only ratings change, and only that book's |
| Store.RecalcIdempotent | store/logic.py:6-9 | computing a rating twice gives what computing it once gives |
| Store.IndexOfSameIds | store/logic.py:8-9 | the lookup depends on the ids alone |
| Store.RecalcRestores | store/logic.py:7-8 | if a change to the rows keeps every other book's mean, recomputing the one book makes all ratings current |
| Store.SaveNew | store/models.py:88-91 | the row is appended and its book's rating is the mean over all rows, the new one included; users, next id and books stay, except that book's rating |
| Store.SaveAt | store/models.py:88-91 | the row is overwritten and the book it names gets the mean over all rows; users, next id and books stay, except that book's rating |
| Store.SaveNewKeepsRatingsCurrent | store/models.py:88-91 | saving a new row keeps every rating current |
| Store.SaveAtKeepsRatingsCurrent | store/models.py:88-91 | saving a row that stays on its book keeps every rating current |
| Store.SameIdsSameBookIds | store/logic.py:8-9 | books with the same ids have the same id set |
| Store.RecalcKeepsValid | store/logic.py:8-9 | recomputing a rating keeps the tables valid |
| Store.SaveNewKeepsValid | store/models.py:88-91 | saving a new row of a known user about an existing book keeps the tables valid |
| Store.SaveAtKeepsValid | store/models.py:88-91 | saving a row that keeps its user and book keeps the tables valid |
| Store.PairCountAppend | store/models.py:88-91 | appending a row adds one to its pair's count and nothing to the others |
| Store.PairCountUpdateSamePair | store/models.py:88-91 | overwriting a row with one of the same pair keeps every count |
| Store.SaveAtKeepsUnique | store/models.py:88-91 | saving a row that keeps its pair keeps the rows unique |
| Store.GetOrCreate | store/views.py:40-43 | one stored row is returned unchanged; none: a default row is created exactly then, and besides it only the book's rating may change; two or more: MultipleObjectsReturned; an unknown book with no row: an error and nothing stored |
| Store.FoundOnce | store/views.py:40-43 | a pair with exactly one row is found at that row and nothing is created |
| Store.GetOrCreateIdempotent | store/views.py:40-43 | a second lookup returns the same row and creates nothing |
| Store.GetOrCreateKeepsUnique | store/views.py:40-43 | the lookup keeps at most one row per pair |
| Store.UniqueLookupUnambiguous | store/views.py:40-43 | with unique rows the lookup never reports several rows |
| Store.DirectCreateMakesLookupAmbiguous | store/models.py:50-83 | the schema has no uniqueness: two rows of one pair saved directly make every later lookup fail |
| Store.GetOrCreateKeepsInvariants | store/views.py:40-43 | the lookup keeps the tables valid and every rating current |
| Store.ValidPatchNamesExistingBook | store/serializers.py:29-32 | a sent book passes validation only when it exists, so even the as-written patch never points a row at a missing book |
| Store.ApplyReactionPatch | store/serializers.py:29-32 | the patched row keeps its user and book |
| Store.ApplyReactionPatchAsWritten | store/serializers.py:32 | as written, a sent book is written into the row; every other field is as in the corrected patch |
| Store.PatchReaction | store/views.py:34-43 | anonymous requests are refused with nothing changed; a failed request leaves at most the created default row; success means a valid patch; whatever the outcome, users, next id and books stay, except the rating of the book in the URL |
| Store.PatchChangesOnlySentFields | store/views.py:34-43 | a successful patch writes exactly the sent like, bookmark and rate into the requester's row for the book and changes no other row |
| Store.PairIndexIsOnly | store/views.py:40-43 | when a pair has one row the lookup finds that row |
| Store.PatchKeepsInvariants | store/views.py:34-43 | every patch keeps the tables valid, every rating current and the rows unique |
| Store.PatchLikeExample | store/tests/test_api.py:265-282 | {"like": true} on book 2 creates user 1's row with the like set |
| Store.CreatedRowOfApiDb | store/tests/test_api.py:254-263 | the first lookup of (user 1, book 2) creates the row |
| Store.PatchRateExample | store/tests/test_api.py:284-299 | {"rate": 3} on book 2 stores rate 3 and makes the book's rating 3 |
| Store.NewBook | store/views.py:28-31 | the new book has the given id and owner, is unpublished and without rating, carries the sent fields with author '' by default, and valid data fits the columns |
| Store.NewBookAsWritten | store/serializers.py:22-23 | as written, the new book is the corrected one except that a sent rating is stored |
| Store.ApplyData | store/serializers.py:13-23 | the sent name, price and author replace the old ones; id, owner, publication and rating stay; valid data keeps a book within its columns |
| Store.ApplyDataAsWritten | store/serializers.py:22-23 | as written, the result is the corrected one except that a sent rating replaces the derived one |
| Store.RateOfOnlyRow | store/models.py:88-91 | saving a table's only row with a rate makes that rate its book's rating |
| Store.CreateBook | store/views.py:28-31 | refused or invalid requests change nothing; otherwise exactly one book is added, with the next id, owned by the requester, unpublished, without rating, with the sent fields and author '' by default |
| Store.CreateByRequester | store/tests/test_api.py:85-101 | an authenticated user with valid data always creates one book and owns it |
| Store.FreshIdHasNoRating | store/models.py:38-44 | a new book has no reactions, so its mean is absent |
| Store.CreateKeepsInvariants | store/views.py:28-31 | creating keeps the tables valid, every rating current and the rows unique |
| Store.UpdateBook | store/views.py:17-23 | unknown id: not found; refused or invalid: nothing changes; success writes the sent name, price and author over that book only, never its owner, publication or rating |
| Store.DeniedUpdateChangesNothing | store/tests/test_api.py:148-164 | an update the tests deny (non-owner, non-staff; owner of a published book) is refused and changes nothing |
| Store.AllowedUpdateSucceeds | store/tests/test_api.py:191-207 | an update the tests allow (owner or staff on an unpublished book) with valid data succeeds |
| Store.UpdateKeepsInvariants | store/serializers.py:13-23 | updating keeps the tables valid, every rating current and the rows unique |
| Store.DeleteBook | store/models.py:65-70 | unknown id: not found; refused: nothing changes; success removes that one book from its place, keeps the others in order, and leaves the reaction rows `WithoutBook` gives: every other book's rows, each as often as before |
| Store.DeleteRemovesId | store/models.py:65-70 | with increasing ids a successful delete takes exactly the deleted id away and keeps the ids increasing |
| Store.DeniedDeleteChangesNothing | store/tests/test_api.py:166-189 | a delete by a non-owner who is not staff is refused and changes nothing |
| Store.PairCountWithoutBook | store/models.py:65-70 | dropping a book's rows never adds rows to a pair |
| Store.PairCountWithoutUser | store/models.py:59-64 | dropping a user's rows never adds rows to a pair |
| Store.RemoveBook | store/models.py:65-70 | removing a book keeps ids increasing and takes exactly its id away |
| Store.DeleteKeepsInvariants | store/models.py:65-70 | deleting a book keeps the tables valid, every other rating current and the rows unique |
| Store.Disown | store/models.py:26-32 | the book keeps everything but an owner that is the deleted user, which becomes none |
| Store.DeleteUser | store/models.py:26-32 | the user goes; their books stay with no owner and nothing else changed; the reaction rows become `WithoutUser`'s: every other user's rows, each as often as before |
| Store.DeleteUserLeavesStaleRating | store/models.py:59-64 | the cascade recomputes nothing: after deleting the only rater of a book, its rating still shows the gone rate |
| Store.DeleteUserKeepsValid | store/models.py:26-32 | deleting a user keeps the tables valid and the rows unique |
| Store.ListedRateIsRating | store/views.py:19 | with ratings current, each listed book's live rate is its stored rating |
| Store.SentRatingOnCreateIsStale | store/serializers.py:22-23 | as written, a rating sent with a create leaves the new book's rating out of step with its reactions |
| Store.SentRatingOnUpdateIsStale | store/serializers.py:22-23 | as written, a rating sent with an update gives a book without rates a rating |
| Store.MoveExampleValid | store/models.py:50-83 | the example tables are valid |
| Store.MoveExampleCurrent | store/logic.py:6-9 | the example's ratings are current: book 1 has the mean 5, book 2 none |
| Store.MoveExamplePairs | store/models.py:50-83 | each of the example's pairs has exactly one row |
| Store.MoveExampleSound | store/serializers.py:32 | the example tables are valid, current and unique, the lookup finds row 0 and the move patch validates |
| Store.MovedReactionLeavesStaleRating | store/serializers.py:32 | as written, moving a rated row to another book leaves the old book's rating stale |
| Store.MovedReactionDuplicatesPair | store/serializers.py:32 | as written, moving a row onto a book the user already reacted to duplicates the pair, and the lookup then fails |
| Store.Catalogue.constructor | store/models.py:7-44 | an empty catalogue over some users is valid; ids start at 1 |
| Store.Catalogue.CalculateRating | store/logic.py:6-9 | in place, the tables become `Recalc` of the old ones |
| Store.Catalogue.SaveNewReaction | store/models.py:88-91 | in place, `SaveNew`; validity and current ratings are kept |
| Store.Catalogue.SaveReactionAt | store/models.py:88-91 | in place, `SaveAt` |
| Store.Catalogue.GetOrCreateReaction | store/views.py:40-43 | in place, `GetOrCreate`, returning the row's position and whether it was created |
| Store.Catalogue.UpdateReaction | store/views.py:34-43 | in place, `PatchReaction`; the invariant is kept |
| Store.Catalogue.PerformCreate | store/views.py:28-31 | in place, `CreateBook`; the invariant is kept |
| Store.Catalogue.PerformUpdate | store/views.py:17-23 | in place, `UpdateBook`; the invariant is kept |
| Store.Catalogue.PerformDestroy | store/views.py:17-23 | in place, `DeleteBook`; the invariant is kept |
| Store.Catalogue.RemoveUser | store/models.py:26-32 | in place, book by book, `DeleteUser`; validity and uniqueness are kept |

## Left out

- HTTP plumbing: routes, status codes, error message bodies, response bodies and the `oauth` template view. A request's outcome is its new tables and an optional error kind.
- Store.PatchReaction: the reaction endpoint's authentication failure is reported as `Denied`. The 401/403 distinction is not modelled.
- Admin registration (`store/admin.py`) and the `__str__` methods of both models: neither affects behaviour.
- Query counts, `select_related` and `prefetch_related`: these are performance, not logic.
- Decimals.Round2, Rating.MeanRate: the mean is exact. The database rating column stores it rounded to two places and the aggregate may come back as a float. Every rendering rounds the exact mean with `Round2`, which rounds a tie half up; the framework's decimal fields quantize under round-half-even, so a mean that ends in exactly half a hundredth shows differently (rates 5, 5, 5, 4, 4, 4, 3, 3 give 33/8: "4.12" there, 4.13 here). The tested values 4.67, 4.50, 3.33, 3.75, 3.50 and 4.00 have no ties, so they agree.
- `store/permissions.py` is not part of this model. Operations take the policy as a parameter, and only the tested decisions are pinned (see `Permissions.Pinned`). Staff on published books and anonymous writes are left open.
- Store.UpdateBook, Store.DeleteBook: the view checks the policy's request-level permission before it looks the book up. Whether a missing book gives 404 or 403 to a refused user depends on that unseen class, so the model looks the book up first.
- Listing.OrderByPrice: only `ordering=price` is modelled. Other keys and descending order are left out. The view gives an unordered listing no `order_by` (store/views.py:18-20), so its order is the database's; keeping table order there, as `Listing.List` and `Listing.Where` do, is this model's own choice (the listing tests compare such results against `-id`, store/tests/test_api.py:57). The view names no tie-break; breaking ties by ascending id follows the ordering test (store/tests/test_api.py:79), not store/views.py.
- Listing.Contains: the search takes the whole term as one. The framework's splitting of the search text into several terms is not modelled. Case folding covers ASCII, the basic Cyrillic alphabet and Ё; other scripts are compared as they are. The source names no database; the model folds Cyrillic as a Unicode-aware backend such as PostgreSQL does, whereas SQLite's LIKE folds ASCII letters only.
- PUT on the reaction endpoint (the full update `UpdateModelMixin` also routes, store/views.py:6,34): not modelled. It would run the same lookup and validation as the PATCH, but with `book` required; only the PATCH that the tests exercise is modelled.
- Retrieve by id is not modelled as an operation. Its price rendering is covered by `Serializers.ShownPrices`.
- Reaction deletion is not modelled: deletes do not go through `save`, so no rating is recomputed.
- Store.DeleteUser: the cascade on a user's reaction rows recomputes no rating, so `RatingsCurrent` is not claimed after it; `Store.DeleteUserLeavesStaleRating` shows a rating left stale.
- Concurrency: races in get-or-create and the missing (user, book) unique constraint under concurrent requests.
- Failure of the rating write after the reaction write (the two are not in one transaction): the model has no storage failures.
- Store.Catalogue.CalculateRating: `calculate_rating` saves every field of the in-memory book object. The model writes only the rating, which is the same when the book object is freshly loaded, as it is on the API path.
- Store.ValidBookData: CharField whitespace trimming and the parsing of request text ("22.00") into hundredths are not modelled. A sent price is given in hundredths already.
- Store.SentRating: a negative rating sent by a client (which the 3-digit column would accept) is not modelled. It is only reachable through the writable rating listed under Findings.
- Serializers.RenderBook: the order of `reader_fio` entries follows the reaction rows. The database's unordered join order is not modelled.

## Findings

| source | as written | input that shows it | evidently intended | confidence | as-written member | corrected member |
|---|---|---|---|---|---|---|
| store/serializers.py:22-23 | `rating` is a listed, writable model field, so an update stores a client-sent rating over the derived one | PUT /book/<id>/ on a book with no rated reactions, with "rating": "4.00" | `rating` is read-only and only `calculate_rating` sets it | not executed; high | Store.SentRatingOnUpdateIsStale | Store.UpdateKeepsInvariants |
| store/serializers.py:22-23 | the same writable `rating` is stored when a book is created | POST /book/ with name, price and "rating": "4.00" | a new book starts without rating | not executed; high | Store.SentRatingOnCreateIsStale | Store.CreateKeepsInvariants |
| store/serializers.py:32 | `book` is a writable field of the reaction, so a PATCH moves the row; `save` then recomputes only the new book | user 1 rated book 1 with 5 and also has a row for book 2; PATCH /book_relation/1/ with {"book": 2} | the book is fixed by the URL; only like, in_bookmarks and rate change | not executed; medium | Store.MovedReactionLeavesStaleRating | Store.PatchKeepsInvariants |
| store/serializers.py:32 | the same move can give the (user, book) pair a second row; the lookup of that pair then fails with MultipleObjectsReturned | the same request | one row per (user, book), as the lookup by book id relies on | not executed; medium | Store.MovedReactionDuplicatesPair | Store.PatchKeepsInvariants |

The corrected model writes neither field. `Store.ApplyData` and `Store.NewBook` ignore a
sent rating. `Store.ApplyReactionPatch` keeps the row's book. The rest of the model uses
these corrected versions. `Store.ApplyDataAsWritten`, `Store.NewBookAsWritten` and
`Store.ApplyReactionPatchAsWritten` are the code as written.
