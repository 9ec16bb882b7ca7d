# Student sublet board — a Dafny model of its core

The system is a small web application where university students sublet
rooms. Users sign up with a `.edu` address and log in. A user can post a
listing, which records rooms, bathrooms, a monthly cost, an availability
window and an address. Others can browse listings through a search endpoint,
a homepage with a text and price filter, and a map feed of listings that
have coordinates. A student asks for a room with a booking request, and the
listing's owner approves or rejects it. Approving hands both parties each
other's e-mail address.

This project models that core in Dafny. The files are:

- `records.dfy` (module `Records`): the stored entities `User`, `Listing`
  and `BookingRequest`, the creation form `ListingStructure` and `Option`.
- `text.dfy` (module `Text`): the Python string operations the code relies
  on. These are `strip` (Python's whitespace set), ASCII `lower`,
  `endswith`, `", ".join` and dropping empty strings from a list. It also
  has a substring test, `Contains`, which only the intended homepage search
  (see "## Findings") uses.
- `sql_like.dfy` (module `SqlLike`): SQL `LIKE`/`ILIKE` pattern matching as
  PostgreSQL does it without an `ESCAPE` clause: `%` and `_` are wildcards
  and a backslash escapes the next character. The application's database is
  taken to be PostgreSQL, since it runs on Supabase.
- `listing_crud.dfy` (module `ListingCrud`): the listings table as a class
  with lookup, create and delete.
- `booking_request_crud.dfy` (module `BookingRequestCrud`): the booking
  requests table as a class. Its methods are proved equal to a value-level
  step function `Apply`, and `Run` folds `Apply` over a history. Lemmas
  over whole histories show that ids are never reused and that a request's
  status is the last decision its listing's owner made.
- `accounts.dfy` (module `Accounts`): the `.edu` test, signup validation,
  the display name, and signup and login against a users table that keeps
  e-mail addresses unique.
- `browse.dfy` (module `Browse`): the search filters, the homepage query and
  its cards (including `full_address`), and the map feed.

Database tables are maps from id to row, held in fields of a class. The
database's id counter is a `nextId` field. The password hash, the password
check and the clock are parameters.

## Model

| member | source | states |
|---|---|---|
| ListingCrud.GetListingById | backend/app/crud/listing_crud.py:5-24 | Nothing is returned exactly when no listing has the id; otherwise all fourteen public fields of that listing come back unchanged |
| ListingCrud.FromStructure | backend/app/crud/listing_crud.py:26-42 | A created row carries every supplied field as given, with no cross-field check, and has no coordinates |
| ListingCrud.CreateThenGet | backend/app/crud/listing_crud.py:5-46 | After a listing is stored under an unused id, a lookup of that id gives back exactly the supplied fields, and lookups of other ids are unchanged |
| ListingCrud.ListingTable.CreateListing | backend/app/crud/listing_crud.py:26-46 | The new row gets the next unused id; nothing else in the table changes; a lookup of the new id returns the supplied fields |
| ListingCrud.ListingTable.DeleteListing | backend/app/crud/listing_crud.py:49-55 | An unknown id returns nothing and leaves the table alone; a known id removes exactly that row and returns the message with the id |
| BookingRequestCrud.BookingRequestTable.GetBookingRequestById | backend/app/crud/booking_request_crud.py:10-22 | Nothing is returned exactly when the id is unknown; otherwise the request's listing id and subletter id come back |
| BookingRequestCrud.BookingRequestTable.CreateBookingRequest | backend/app/crud/booking_request_crud.py:25-45 | A second request by the same subletter for the same listing is refused with "Request already exists" and changes nothing; otherwise a pending request is stored under the next id and that id is returned |
| BookingRequestCrud.BookingRequestTable.DeleteBookingRequest | backend/app/crud/booking_request_crud.py:48-64 | An unknown id answers 404 and changes nothing; a known id removes exactly that request and answers 200 with the id |
| BookingRequestCrud.BookingRequestTable.RowFor | backend/app/crud/booking_request_crud.py:78-97 | The row is for the given request. The request entry carries the stored request's listing id, subletter id, status and creation time. The listing entry carries that listing's id, title, city and cost. The user entry carries the subletter's id, name and e-mail |
| BookingRequestCrud.BookingRequestTable.IncomingRequests | backend/app/crud/booking_request_crud.py:66-101 | Every row is a pending request on a listing of the owner, built by `RowFor`. Every such request appears in exactly one row |
| BookingRequestCrud.CheckOwner | backend/app/crud/booking_request_crud.py:106-112 | "Request not found" exactly when the id is unknown, "Unauthorized" exactly when the caller does not own the request's listing, and no error exactly otherwise |
| BookingRequestCrud.SetStatus | backend/app/crud/booking_request_crud.py:114-115 | Only the one request's status changes. Its listing, subletter and creation time stay, and every other request stays |
| BookingRequestCrud.Apply | backend/app/crud/booking_request_crud.py:25-145 | Every operation keeps the table valid (foreign keys, at most one request per subletter and listing, ids below the counter). The counter never goes down. Only the counter's id can be added. A surviving request changes only by the owner's decision |
| BookingRequestCrud.Run | backend/app/crud/booking_request_crud.py:25-145 | Any history of operations keeps the table valid and never lowers the id counter |
| BookingRequestCrud.RunNeverReusesIds | backend/app/crud/booking_request_crud.py:36-42 | An id that appears during a history is above every id in use before it, even after deletes |
| BookingRequestCrud.StatusIsLastOwnerDecision | backend/app/crud/booking_request_crud.py:103-145 | After any history, a surviving request keeps its listing, subletter and creation time. Its status is the one set by the last approve or reject that the listing's owner issued on it. With no such decision, the status is what it was before |
| BookingRequestCrud.LastDecisionIsIssued | backend/app/crud/booking_request_crud.py:114-141 | The decision that the history yields for a request was issued by one of its commands |
| BookingRequestCrud.OnlyOwnerChangesStatus | backend/app/crud/booking_request_crud.py:111-114 | A request whose status differs after a history was approved or rejected in it by its listing's owner |
| BookingRequestCrud.BookingRequestTable.ApproveRequest | backend/app/crud/booking_request_crud.py:103-128 | An unknown id answers "Request not found" and a wrong owner "Unauthorized", and nothing changes. Otherwise the status becomes approved, nothing else changes, and the owner's and requester's e-mails come back |
| BookingRequestCrud.BookingRequestTable.RejectRequest | backend/app/crud/booking_request_crud.py:130-145 | The same refusals as approve, with no change. Otherwise the status becomes rejected and nothing else changes |
| Accounts.IsEdu | backend/app/main.py:37-38 | The test itself: the stripped, lower-cased address ends with ".edu". Its meaning is stated by `IsEduMeans` and the two lemmas after it |
| Accounts.IsEduMeans | backend/app/main.py:37-38 | An address passes exactly when, after stripping surrounding whitespace, it has at least four characters and its last four lower-case to ".edu" |
| Accounts.IsEduIgnoresPadding | backend/app/main.py:37-38 | Surrounding whitespace never changes the answer |
| Accounts.IsEduIgnoresCase | backend/app/main.py:37-38 | Lower-casing the address never changes the answer |
| Accounts.DisplayName | backend/app/main.py:79 | The name is the stripped first and last names joined by one space. An empty part is dropped with its space |
| Accounts.ValidateSignup | backend/app/main.py:70-73 | No error exactly when the address is `.edu` and the password has at least 8 characters. The address is checked first, with its own message |
| Accounts.AddUserKeepsUnique | backend/app/main.py:77-84 | A user added under a fresh id with an address nobody has keeps addresses unique |
| Accounts.OwnerOfEmail | backend/app/main.py:95-97 | With unique addresses, the credentials match exactly when the one user with that address has a password that passes the check |
| Accounts.UserTable.Signup | backend/app/main.py:63-86 | A validation failure answers 400 with its detail and changes nothing. A taken address answers "Account already exists" and changes nothing. Otherwise exactly one user with the display name and hash is added under the next id |
| Accounts.UserTable.Login | backend/app/main.py:89-101 | A non-`.edu` address answers 400. Wrong credentials answer 401. Otherwise the session holds the matching user's id and the reply redirects to /profile |
| Text.Strip | backend/app/main.py:38 | The result starts and ends with a non-whitespace character (or is empty) |
| Text.LStripShape | backend/app/main.py:38 | Left strip removes a whitespace-only prefix and stops at the first non-whitespace character |
| Text.RStripShape | backend/app/main.py:38 | Right strip removes a whitespace-only suffix and stops at the last non-whitespace character |
| Text.StripDecomposes | backend/app/main.py:38 | Every string is its stripped form with whitespace-only padding on both sides |
| Text.StripPadded | backend/app/main.py:38 | Stripping a trimmed core padded with whitespace gives the core back |
| Text.StripIgnoresPadding | backend/app/main.py:38 | Adding whitespace around a string does not change its strip |
| Text.StripIdempotent | backend/app/main.py:79 | Stripping twice is stripping once |
| Text.StripLower | backend/app/main.py:38 | Stripping and lower-casing commute |
| Text.LowerIdempotent | backend/app/main.py:38 | Lower-casing twice is lower-casing once |
| Text.NonEmpty | backend/app/main.py:79 | The filter keeps every non-empty string of the list and nothing else, and the result is no longer than the list |
| Text.JoinOfNonEmptyIsEmpty | backend/app/main.py:176 | A join of non-empty strings is empty only when there is nothing to join |
| SqlLike.LikeMatch | backend/app/main.py:165-170 | The matcher itself: `%` matches any run, `_` matches one character, a backslash makes the next character literal, and every other character matches itself. Its properties are the lemmas below |
| SqlLike.ILike | backend/app/main.py:165-170 | ILIKE is LIKE with the text and the pattern both lower-cased |
| SqlLike.PercentMatchesAll | backend/app/main.py:165 | The pattern `%` matches every string |
| SqlLike.SurroundedLiteralIsContains | backend/app/main.py:165-170 | For a pattern without wildcards or backslashes, LIKE with `%` on both sides matches exactly when the pattern occurs in the string |
| SqlLike.ILikeSurroundedIsContainsIgnoringCase | backend/app/main.py:165-170 | The same for ILIKE, ignoring case |
| Browse.Where | backend/app/main.py:247-257 | One `query.filter`: exactly the rows that pass the test, unchanged |
| Browse.Narrow | backend/app/main.py:248-257 | One `if bound is not None: query = query.filter(...)` step: a supplied bound keeps exactly the rows within it, a missing bound keeps every row |
| Browse.SearchResults | backend/app/main.py:243-261 | Exactly the listings that meet every supplied bound come back: cost at most, bedrooms and bathrooms at least, start no later, end no earlier. The rows are unchanged |
| Browse.MoreFiltersNarrow | backend/app/main.py:248-257 | Supplying more filters, or tighter ones, never returns a listing the looser search would not |
| Browse.NoFilterReturnsAll | backend/app/main.py:247-258 | With no bound supplied, every listing comes back |
| Browse.IlikeContains | backend/app/main.py:165-170 | The text test as written: `s ILIKE '%' || q || '%'`, with q unescaped |
| Browse.IlikeAgreesWithoutWildcards | backend/app/main.py:164-170 | For a query without `%`, `_` or a backslash, the ILIKE filter as written agrees with a case-insensitive substring test |
| Browse.PercentQueryMatchesEverything | backend/app/main.py:165 | As written, the query "%" matches every text, including texts with no percent sign |
| Browse.ContainsIgnoreCaseMeans | backend/app/main.py:164-170 | The intended text test holds exactly when some stretch of the text equals the query, ignoring case |
| Browse.PercentIsLiteral | backend/app/main.py:164-170 | Under the intended test, "%" is found exactly in texts that contain a percent sign |
| Browse.FilterByTextAndPrice | backend/app/main.py:162-174 | The query chain. A missing or empty q applies no text filter; otherwise the given text test must hold. A missing or zero price applies no price filter; otherwise the cost is at most the price. Exactly the listings that pass come back, unchanged |
| Browse.HomepageQuery | backend/app/main.py:162-174 | Exactly the listings that pass the homepage filters as written come back, unchanged. When q is non-empty, `%q%` must ILIKE-match the title, city or address. When the price is set and not 0, the cost is at most the price |
| Browse.HomepageQueryIntended | backend/app/main.py:162-174 | The same query with the intended text test: q itself must occur, ignoring case, in the title, city or address |
| Browse.HomepageQueriesAgree | backend/app/main.py:164-170 | For a query without `%`, `_` or a backslash, the query as written and the intended query return the same listings |
| Browse.PercentQueryKeepsEverything | backend/app/main.py:165 | As written, searching for "%" returns the same listings as no search text at all |
| Browse.PercentQueryFindsPercentSign | backend/app/main.py:164-170 | As intended, searching for "%" keeps exactly the listings within the price whose title, city or address contains a percent sign |
| Browse.LowerPriceNarrows | backend/app/main.py:171-172 | A lower price cap never lets more listings through |
| Browse.NonEmptyConcat | backend/app/main.py:176 | Dropping empty parts distributes over concatenation of part lists |
| Browse.EmptyPartIsSkipped | backend/app/main.py:176 | An empty part adds nothing to the joined address, not even a separator |
| Browse.NonEmptyKeepsNonEmpty | backend/app/main.py:176 | A list without empty parts passes the filter unchanged |
| Browse.AllPartsJoined | backend/app/main.py:176 | Four non-empty parts are joined in order with ", " between each two |
| Browse.NoPartsJoined | backend/app/main.py:176 | The joined address is empty exactly when every part is empty |
| Browse.FullAddress | backend/app/main.py:176 | The full address is empty exactly when address, city, state and zip code are all empty. When none is empty it is the four joined by ", " in that order |
| Browse.CardFor | backend/app/main.py:177-188 | A card carries its listing's id and the listing's full address |
| Browse.CardsFor | backend/app/main.py:174-188 | One card per row, each built by `CardFor`, no id twice, and every row has a card |
| Browse.ShowHomepage | backend/app/main.py:143-204 | The user's name when the id is known, otherwise none. One card for each listing that the homepage filters as written (ILIKE on `%q%`) let through and no other, each exactly once |
| Browse.ListingsWithCoordinates | backend/app/main.py:272-304 | Exactly the listings with both a latitude and a longitude come back, unchanged |
| Browse.CreatedListingIsNotOnTheMap | backend/app/main.py:276-280 | Adding a listing created through the listing store leaves the map feed unchanged, because creation sets no coordinates |

## Left out

- Password hashing and checking (bcrypt, `backend/app/main.py:40-47`) are left out. The hash is a parameter of `Signup`, and the check is a function parameter of `Login`.
- Sessions, cookies, HTTP routing, templates and static files are left out. The session is a `Session` object with a `userId` field that `Login` sets.
- Database sessions, transactions, commits and concurrent requests are left out. Each operation is atomic on the maps, so races between requests are not modelled.
- The map feed's `to_dict` (`backend/app/main.py:281-303`) is left out. The feed is modelled as the set of rows it serialises. The float conversion, date formatting and `image1`-`image4` columns are not modelled.
- Floating-point costs and coordinates are `real`, so rounding is not modelled.
- Dates are day numbers (`int`), and the `dates` query parameter of the homepage is ignored, as the code ignores it.
- A request's creation time is the `now` parameter of `CreateBookingRequest`, since the clock is outside the model.
- Text.Lower lower-cases ASCII letters only, whereas Python's `lower()` handles all of Unicode.
- SqlLike.LikeMatch makes a pattern that ends in a lone backslash match nothing, whereas PostgreSQL rejects such a pattern with an error. The homepage pattern `%q%` never ends that way, because its final `%` is either a wildcard or escaped. The database's collation and locale-dependent case folding in ILIKE are not modelled.
- Nullable listing columns other than the coordinates are treated as always present. So `cost_per_month or 0` (`backend/app/main.py:185`) is the cost itself, and the `None` branches of the serialisers do not arise.
- Accounts.IsEduMeans does not model the `isinstance` test of `backend/app/main.py:38`. The address is always a string here, so that test is always true.
- ListingCrud.ListingTable.DeleteListing returns the message and the id as a pair. Line 55 of `backend/app/crud/listing_crud.py` is not valid Python (`{"message": "...": listing_id}`), so the evident message-plus-id is modelled.
- `SearchFilterStructure` is imported by `backend/app/main.py:16` but defined nowhere in the shown source. Its five optional bounds are inferred from `backend/app/main.py:248-257`.
- The `Listing` table model has no latitude, longitude or image columns, and the booking-request table model has no `status` or `created_at` columns. The model follows the code that reads and writes them: listings carry optional coordinates, and a request carries a status and a creation time.
- BookingRequestCrud.BookingRequestTable.CreateBookingRequest requires that the listing and the subletter exist. `create_booking_request` checks neither; the database enforces the foreign keys of `backend/app/models/booking_request.py:7-8` and refuses the insert at commit. That refusal is not modelled.
- ListingCrud.ListingTable.DeleteListing always removes a known listing. With the foreign keys enforced, the database refuses to delete a listing that booking requests refer to, and `delete_listing` then raises at commit. That refusal is not modelled, because the listings table does not see the booking-request table. The booking-request table's validity refers to the listings and users given at its construction.
- BookingRequestCrud.BookingRequestTable.ApproveRequest requires that the listing's owner and the subletter exist as users (the foreign keys). The code would fail on a missing user with an attribute error, which is not modelled.
- Accounts.UserTable.Signup answers an already-registered address the way the code does: a success reply saying "Account already exists. Please log in.", not a conflict error. The duplicate test compares addresses exactly as given, like the code's equality filter.
- BookingRequestCrud.BookingRequestTable.IncomingRequests and Browse.ShowHomepage promise no row order, since the queries have no `ORDER BY`.
- The profile, users, listing-by-lister and logout pages, the other route files, e-mail verification and the storage client are not part of this model.

## Findings

| source | as written | input that shows it | evidently intended | confidence | as-written member | corrected member |
|---|---|---|---|---|---|---|
| backend/app/main.py:165 | The search text `q` goes into an ILIKE pattern between two `%` without escaping. So `%` and `_` inside `q` act as wildcards, and a backslash escapes the next character | `q = "%"` keeps every listing, including those whose title, city and address have no percent sign | A listing passes when `q` itself occurs in the title, city or address, ignoring case | not executed | Browse.PercentQueryKeepsEverything | Browse.PercentQueryFindsPercentSign |

The homepage in this model (`Browse.HomepageQuery`, `Browse.ShowHomepage`)
follows the code: it uses the ILIKE test. `Browse.PercentQueryKeepsEverything`
shows that searching for "%" there is no search at all.
`Browse.HomepageQueryIntended` is the corrected query. It uses the literal,
case-insensitive test whose meaning `Browse.ContainsIgnoreCaseMeans` states.
`Browse.PercentQueryFindsPercentSign` shows that under it, "%" finds only
listings that contain a percent sign. `Browse.HomepageQueriesAgree` shows
that the two queries return the same listings for every search text without
`%`, `_` or a backslash.
