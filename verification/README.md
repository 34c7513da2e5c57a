# WeRPeace auction site — verified model of the bidding core

The WeRPeace site runs charity auctions. At start-up the server indexes a fixed catalog of
auctions by slug. Visitors post bids through a form. Each bid is checked and, if it passes,
appended to a `bids` table. An administrator can close and reopen auctions through an
`auction_status` table. Every page shows each auction joined with its winning bid, its bid
count and its status. The browser side formats amounts, elapsed times and the status badge.

This project models that core in Dafny:

- `Catalog` — the slug index built by a `forEach` over the auction definitions, later
  definitions overwriting earlier ones with the same slug.
- `Ledger` — the append-only `bids` table and its three queries: highest bid, all bids by
  descending amount, and bid count.
- `StatusStore` — the `auction_status` table: an upsert for close and reopen, and a read
  that defaults to `"open"`.
- `Engine` — the bid pipeline as a pure function. It checks, in the server's order:
  unknown auction, name, e-mail, amount, closed auction, amount not above the minimum.
  The module also holds the ledger invariant it preserves, `enrichAuction`, and the class
  `AuctionHouse`, which owns the two tables and updates them in place.
- `AuctionUtils` — the browser helpers: status label and colour, `formatCurrency`, and
  `timeAgo`.
- `PlainObjectLookup` — the lookup as written, on a plain JavaScript object (see Findings).
- `Scenarios` — a widget walk-through that drives `AuctionHouse` and checks what it
  answers and what its page shows.
- `JsText` — JavaScript `String.prototype.trim` and decimal digit strings.
- `Wrappers` — the option type.

Amounts are whole cents, so 10.00 is 1000. A form field is `None` when it is absent. The
parsed amount is `None` when `parseFloat` gives `NaN`. Ids follow `AUTOINCREMENT` on a table
that is never deleted from: row `i` has id `i + 1`. Timestamps (`created_at`, `closed_at`)
and the current time come in as parameters.

The model follows the code where the two could be read differently:

- The status is stored text. `"closed"` means closed, and anything else, or no row, means
  open.
- `ORDER BY amount DESC` does not fix the order of equal amounts. For `getHighestBid` the
  model returns the earliest row among equals (`Ledger.HighestIndex`). For `getAllBids` it
  states only that the rows come out by descending amount, with none lost or added. Under
  the ledger invariant, amounts on one auction never repeat, so the order of equals is
  never observable (`Ledger.HighestIsLatest`, `Ledger.AllBidsNewestFirst`).

## Model

| member | source | states |
|---|---|---|
| Catalog.IndexBySlug | server.js:33-34 | every entry of the index is filed under its own slug |
| Catalog.IndexHasSlug | server.js:33-34 | a slug is a key of the index exactly when some definition carries that slug |
| Catalog.IndexEntryIsDefinition | server.js:33-34 | every entry of the index is one of the definitions, filed under its own slug |
| Catalog.IndexLastWins | server.js:34 | the last definition with a given slug is the one the index keeps |
| Catalog.IndexFindsEveryDistinct | server.js:33-34 | when slugs are distinct, every definition is found under its slug |
| Catalog.BuildIndex | server.js:33-34 | the `forEach` loop that fills the object yields exactly the index |
| Catalog.Lookup | server.js:96-97 | the own-key read, which the Findings row takes as the intended form of the plain-object lookup: it finds an auction exactly when its slug is a key, and then gives that entry; the auction page goes through it |
| Ledger.BidsFor | server.js:49-51 | the `WHERE auction_slug = ?` rows are exactly the ledger rows of that auction |
| Ledger.BidsForKeepsMultiplicity | server.js:49-51 | each row of the auction occurs in the selection as often as in the table, and rows of other auctions not at all |
| Ledger.BidsForInInsertionOrder | server.js:49-51 | with sequential ids, the selected rows have strictly increasing ids: they come in insertion order |
| Ledger.AppendAboveAllIds | server.js:15 | appending a row whose id exceeds every id of a list with increasing ids keeps the ids increasing |
| Ledger.BidsForAppend | server.js:52 | inserting a row extends the rows of its own auction only |
| Ledger.HighestIndex | server.js:49 | the position of a row of greatest amount, with every earlier row strictly lower: the earliest among equals |
| Ledger.HighestOf | server.js:49 | no row for no rows; otherwise a row of the list whose amount is not exceeded by any row |
| Ledger.HighestBid | server.js:49 | `getHighestBid` is none exactly when the auction has no bids; otherwise it is a bid of that auction with the greatest amount |
| Ledger.BidCount | server.js:51 | the count is the number of rows of the auction, so zero exactly when it has no bids |
| Ledger.InsertDesc | server.js:50 | inserting into a descending list keeps it descending, adds one row and loses none |
| Ledger.InsertDescPermutes | server.js:50 | inserting adds exactly one occurrence of the row (multiset) |
| Ledger.SortDesc | server.js:50 | the sort yields a descending permutation of its input |
| Ledger.AllBids | server.js:50 | `getAllBids` is a permutation of the auction's rows in descending order of amount |
| Ledger.AppendKeepsIncreasing | server.js:145-150 | appending a bid that beats every bid of its auction keeps amounts strictly increasing per auction |
| Ledger.IncreasingRowsAscend | server.js:50 | under that invariant, one auction's rows are strictly ascending in insertion order |
| Ledger.HighestIsLatest | server.js:49 | under the invariant the highest bid is the most recently inserted bid of the auction |
| Ledger.LastIsHighest | server.js:49 | in a strictly ascending list the highest row is the last one |
| Ledger.SortAscendingIsReverse | server.js:50 | a strictly ascending list sorts into its reverse |
| Ledger.InsertBelowAll | server.js:50 | a row lower than all rows of a descending list goes to its end |
| Ledger.AllBidsNewestFirst | server.js:50 | under the invariant the leaderboard is the auction's bids newest first |
| StatusStore.GetAuctionStatus | server.js:58-61 | an auction with no status row reads `"open"`; otherwise its row's status |
| StatusStore.Close | server.js:169 | after the upsert the auction reads `"closed"` with the closing time; the key set gains that slug and no other row changes |
| StatusStore.Reopen | server.js:178 | after the upsert the auction reads `"open"` with no closing time; no other row changes |
| StatusStore.CloseIdempotent | server.js:169 | closing twice is closing once, up to the time stamp; the auction stays closed |
| StatusStore.ReopenIdempotent | server.js:178 | reopening twice is reopening once |
| StatusStore.ReopenForgetsClose | server.js:165-180 | reopening after a close leaves the same table as reopening alone |
| Engine.NameOk | server.js:125 | the name passes exactly when it is present and not all white space |
| Engine.EmailOk | server.js:128 | the e-mail passes exactly when it is present and contains `@`; the blank test adds nothing, since `@` is not white space |
| Engine.AmountOk | server.js:132-133 | the amount passes exactly when it parses to a positive number |
| Engine.IsClosed | server.js:138 | an auction counts as closed exactly when its status row holds `"closed"` |
| Engine.MinBid | server.js:143-144 | the amount to beat is the starting bid when there are no bids; otherwise it is some bid's amount and no bid of the auction exceeds it |
| Engine.StoredMessage | server.js:150 | the message column is set exactly when a message was given whose trimmed text is non-empty, and then holds the trimmed text |
| Engine.Submit | server.js:117-150 | each rejection happens exactly when the earlier checks pass and its own check fails; a too-low bid reports the minimum; a bid is accepted exactly when all checks pass, and the row holds the next id, the slug, the trimmed name and e-mail, the amount and the stored message |
| Engine.LedgerAfter | server.js:150 | an accepted outcome appends its row; a rejection leaves the ledger as it was |
| Engine.AcceptedBeatsFloorAndRivals | server.js:143-147 | an accepted bid exceeds the starting bid and every earlier bid on its auction |
| Engine.AppendKeepsInvariant | server.js:150 | appending a row that is next in id, names a catalog auction and beats its floor and rivals keeps the ledger invariant |
| Engine.SubmitPreservesInvariant | server.js:117-150 | every submission keeps the ledger invariant: per-auction amounts strictly increase, ids are sequential, every row names a catalog auction and exceeds its starting bid |
| Engine.MinBidAfterAccept | server.js:143-150 | after an accepted bid, the amount to beat on that auction is that bid's amount |
| Engine.MinBidAfterRecord | server.js:144 | a row that beats every earlier row of its auction becomes the amount to beat |
| Engine.EqualBidAfterAcceptRejected | server.js:143-147 | a second bid of no greater amount is never accepted; if it passes the earlier checks it is refused with the first bid as the minimum |
| Engine.EnrichAuction | server.js:63-74 | the view's count is the number of bids; current bid and bidder are absent exactly when there are none; otherwise they come from one bid of the auction, and no bid exceeds the current bid; the status is the table's |
| Engine.ViewReportsHighest | server.js:64-70 | the view's current bid and bidder are those of the highest bid |
| Engine.ViewShowsLatestBid | server.js:63-74 | under the invariant the view shows the amount and name of the most recent bid |
| Engine.ViewLatest | server.js:99-100 | under the invariant the view's current bid heads the leaderboard |
| Engine.AuctionHouse.constructor | server.js:33-34 | start-up over an empty database: the catalog is the slug index, every entry sits under its own slug, and both tables are empty |
| Engine.AuctionHouse.View | server.js:95-103 | an unknown slug finds nothing; otherwise the page holds `enrichAuction` of the catalog entry and `getAllBids` of its slug, on the current tables: the leaderboard's length is the count, it is sorted by amount, and it is headed by the current bid |
| Engine.AuctionHouse.SubmitBid | server.js:117-152 | the outcome is the pipeline's on the current tables; an accepted row is appended, a rejection changes nothing, and the invariant holds afterwards |
| Engine.AuctionHouse.CloseAuction | server.js:165-171 | the status table becomes the close upsert of the old one; the ledger is untouched |
| Engine.AuctionHouse.ReopenAuction | server.js:174-180 | the status table becomes the reopen upsert of the old one; the ledger is untouched |
| JsText.TextStart | server.js:125 | the index of the first character that is not white space: everything before it is white space |
| JsText.TextEnd | server.js:125 | the index just past the last character that is not white space: everything after it is white space |
| JsText.Trim | server.js:125 | `trim` gives no more characters than it was given, and neither end of a non-empty result is white space |
| JsText.TrimIsInnerSlice | server.js:125-128 | the trimmed text is the slice of the input from its first non-space character, and only white space lies outside that slice |
| JsText.TrimEmptyIffBlank | server.js:125-128 | a value trims to the empty string exactly when every character is white space |
| JsText.NatToString | src/public/auction-utils.js:13 | a non-negative integer prints as a non-empty digit string with no leading zero |
| JsText.NatToStringRoundTrip | src/public/auction-utils.js:13 | the printed digits read back as the number |
| JsText.NatToStringInjective | src/public/auction-utils.js:13 | distinct numbers print differently |
| AuctionUtils.StatusLabel | src/public/auction-utils.js:24-26 | the label is `SOLD` exactly for `"closed"`, otherwise `LIVE` |
| AuctionUtils.StatusColor | src/public/auction-utils.js:28-30 | gold exactly for `"closed"`, otherwise green |
| AuctionUtils.LabelMatchesColor | src/public/auction-utils.js:24-30 | the badge is gold exactly when it reads `SOLD` |
| AuctionUtils.FixedTwo | src/public/auction-utils.js:3 | `toFixed(2)`: at least four characters, a point three from the end, a leading minus exactly for negative amounts |
| AuctionUtils.TwoDigitsValue | src/public/auction-utils.js:3 | two printed digits read back as their two-digit number |
| AuctionUtils.FixedTwoParts | src/public/auction-utils.js:3 | after the sign come the whole dollars, a point, and the two cent digits |
| AuctionUtils.FixedTwoRoundTrip | src/public/auction-utils.js:3 | the two-decimal text reads back as the amount |
| AuctionUtils.FormatCurrency | src/public/auction-utils.js:1-4 | a dash exactly for a missing amount; otherwise a dollar sign and the two-decimal text |
| AuctionUtils.FormatCurrencyInjective | src/public/auction-utils.js:1-4 | distinct amounts, and a missing one, are shown differently |
| AuctionUtils.TimeAgo | src/public/auction-utils.js:6-22 | under a minute (or negative) is `just now`; then whole minutes, hours and days by range; a week or more shows the date |
| PlainObjectLookup.LookupAsWritten | server.js:118-119 | a lookup on a plain object misses exactly when the slug is neither a catalog key nor an inherited member name |
| PlainObjectLookup.InheritedNameHasPage | server.js:96-97 | as written, the page routes find an inherited member name that is not a catalog key, where the own-key lookup answers not found |
| PlainObjectLookup.SubmitAsWritten | server.js:117-150 | for a catalog slug, or a name that is not inherited, the pipeline as written agrees with the corrected one |
| PlainObjectLookup.InheritedNameTakesFirstBid | server.js:118-150 | as written, a well-formed first bid on an inherited member name is accepted and leaves a row for no catalog auction; the corrected pipeline answers not found |
| PlainObjectLookup.SampleFormWellFormed | server.js:125-135 | the form Ann / a@x.com / one cent passes the name, e-mail and amount checks |
| PlainObjectLookup.ConstructorSlugAccepted | server.js:118-150 | the concrete case: one cent bid on `constructor` is accepted and breaks the catalog invariant |
| Scenarios.AnnTrims | server.js:125-128 | `Ann` and `a@x.com` trim to themselves and pass the name and e-mail checks |
| Scenarios.BoAndCyWellFormed | server.js:125-128 | the two other sample bidders pass the name and e-mail checks |
| Scenarios.WidgetHouse | server.js:33-34 | start-up with the widget alone: a valid house, its catalog, no bids, open |
| Scenarios.OpeningAtStartTooLow | server.js:143-147 | on the fresh widget, an opening bid equal to the starting bid is refused as too low, with the starting bid as the minimum |
| Scenarios.OpeningAboveStartAccepted | server.js:143-150 | on the fresh widget, an opening bid above the starting bid becomes row 1 with the trimmed name and e-mail |
| Scenarios.OpeningBidAccepted | server.js:117-152 | posting that bid to the house leaves exactly that row in the bids table, and the status table as it was, so the widget stays open |
| Scenarios.SingleBidView | server.js:63-74 | with one bid on record, the view shows one bid, its amount and its bidder |
| Scenarios.SingleBidIsMinimum | server.js:143-144 | after one accepted bid, that bid is the amount to beat |
| Scenarios.SoldExactlyWhenClosedToBids | src/public/auction-utils.js:24-26 | an auction shows `SOLD` exactly when a well-formed bid on it is refused as closed |

## Left out

- HTTP and rendering: Express routing, redirects, status codes, flash texts and EJS views.
  A rejection is a value. Its message text (including `minBid.toFixed(2)`) is not built.
- SQLite mechanics: WAL mode, prepared statements, `REAL` storage and `CURRENT_TIMESTAMP`.
  Tables are Dafny values, and time stamps are parameters.
- Concurrency between requests: each request is one atomic step on the tables.
- A database that already holds rows at start-up: the house starts with empty tables.
- Loading `auctions.json` and `site-content.json`: the catalog definitions are a parameter.
  The blog, events and about pages are not part of this model.
- The admin password checks and the admin page: close and reopen are modelled as already
  authorised.
- The `allStatuses` statement, which no route runs.
- The home, about and JSON bid routes beyond the view and leaderboard they share with the
  auction page.
- Repeated form fields, which arrive as arrays: every field is a string or absent.
- Engine.Submit: amounts are whole cents, so `parseFloat` on fractions of a cent, `Infinity`
  and floating-point comparison are not modelled.
- AuctionUtils.FixedTwo: works on whole cents, so binary rounding and the exponent form of
  `toFixed` for amounts of 10^21 or more are not modelled.
- AuctionUtils.TimeAgo: the clock and `Date` parsing are outside the model. It takes the
  elapsed milliseconds as an integer and the formatted locale date as text.
- A catalog slug equal to `__proto__`, which would change the object's prototype rather than
  add an entry.
- `public/app.js`, the Wix scripts and the site-status tools are not part of this model.

## Findings

| source | as written | input that shows it | evidently intended | confidence | as-written member | corrected member |
|---|---|---|---|---|---|---|
| server.js:33-34, server.js:96-97, server.js:108-109, server.js:118-119, server.js:144-145 | `auctionsBySlug` is a plain object. A slug that names an inherited member (`constructor`, `toString`, …) passes the not-found checks of the auction page, the bid API and the bid form. That member has no `startingBid`, so on an auction with no bids `numAmount <= undefined` is false, and the bid is stored. | POST `/auction/constructor/bid` with name `Ann`, e-mail `a@x.com`, amount `0.01`, on a fresh database; GET `/auction/constructor` for the page | only catalog slugs have a page or take bids; any other slug is answered with not found, and every stored row names a catalog auction | not executed | PlainObjectLookup.LookupAsWritten, PlainObjectLookup.InheritedNameHasPage, PlainObjectLookup.SubmitAsWritten, PlainObjectLookup.InheritedNameTakesFirstBid, PlainObjectLookup.ConstructorSlugAccepted | Catalog.Lookup, Engine.AuctionHouse.View, Engine.Submit, Engine.SubmitPreservesInvariant |
