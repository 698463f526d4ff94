# Item requests: validation, create, list and edit-status

This project models the item-request lifecycle of a small Next.js/MongoDB
application in Dafny and proves properties of it. A requestor submits a request
for an item, and it starts out as `pending`. Requests are listed newest first,
optionally filtered by status and cut into fixed-size pages. An administrator
later moves a request to another status, and that edit stamps its
`lastEditedDate`.

The model has three layers.

- **Validation** (`Validation`, over the untrusted JavaScript input values of
  `JsValue`). `isValidMockString` accepts a non-blank string whose length is
  within inclusive optional bounds. Whether a string is blank is decided with
  ECMAScript `trim`. Its length is the raw string's UTF-16 length. The name
  and item predicates fix those bounds. `isValidStatus` is membership in the
  four status strings. The two body validators either copy the accepted fields
  verbatim or refuse the body (`null`). Reading a property of an `undefined`
  or `null` body throws a TypeError, modelled as `Threw`.
- **Record and store** (`RequestModel`, `RequestStatus`). A persisted record
  has the schema's five fields and an id. Its schema predicate requires both
  strings to be present and the status to be one of the enum values. The
  collection is a `seq<Request>` in insertion order, searched by id.
- **Service** (`RequestService`, `Listing`). The three operations are pure
  functions of the store. Create and edit return a `Response` (the new store
  plus a result or an error). The listing only reads, and returns a result
  holding a page or an error. The clock reading `now`, the id the store would generate, and the
  health of the database are parameters. Errors are either
  `InvalidInput(reason)`, the application's `InvalidInputError`, or
  `Unknown`, which covers every other thrown error.

`ServiceProperties` states what holds across calls:
- the store invariant (unique ids, schema, bounds, edited-not-before-created)
  that create and edit preserve;
- the clock discipline of the two dates;
- that no matching record is missed by paging, when no two matching records share a creation date;
- that records created one after another are listed back in reverse.

`Scenarios` states the whole lifecycle on an empty store: create, approve,
then list.

`ObjectId.isValid` is not defined here. It is the function parameter
`isValidId`, and nothing is assumed about it.

The id re-check in `editStatusRequest` (src/server/requests.ts:73-75) reads
as a guard against malformed ids. It calls the same predicate the validator
has already applied, so it can never fire. `RequestService.EditStatusRequest`
keeps the branch and proves it dead.

## Model

| member | source | states |
|---|---|---|
| JsValue.Truthy | src/lib/validation/requests.ts:42 | a value is falsy exactly when it is `undefined`, `null`, `false`, `0` or the empty string |
| JsValue.Trim | src/lib/validation/requests.ts:11 | `trim()` yields an infix of the string such that everything before it and everything after it is whitespace, the infix neither starts nor ends with whitespace, and it is empty exactly when the string is all whitespace |
| JsValue.TrimStart | src/lib/validation/requests.ts:11 | leading-whitespace removal keeps a suffix, removes only whitespace, and stops at the first non-whitespace character |
| JsValue.TrimEnd | src/lib/validation/requests.ts:11 | trailing-whitespace removal keeps a prefix, removes only whitespace, and stops at the last non-whitespace character |
| JsValue.Utf16Length | src/lib/validation/requests.ts:14 | `length` counts UTF-16 code units: exactly one per character plus one more per character outside the Basic Multilingual Plane (`AstralPositions`), so between one and two per character |
| Validation.IsValidMockString | src/lib/validation/requests.ts:10-18 | accepted iff the value is a string, is not blank, and its untrimmed length is within each bound that is present and non-zero, both ends inclusive |
| Validation.IsValidMockName | src/lib/validation/requests.ts:20-22 | a name is accepted iff it is a string that is not blank and has 3 to 30 code units (`NameInBounds`) |
| Validation.IsValidMockItemRequested | src/lib/validation/requests.ts:24-26 | an item is accepted iff it is a string that is not blank and has 2 to 100 code units (`ItemInBounds`) |
| Validation.IsValidStatus | src/lib/validation/requests.ts:28-33 | a status is accepted iff it is the string value of one of the four statuses |
| Validation.StatusValuesNotBlank | src/lib/validation/requests.ts:30 | no status string is blank, so the non-blank check inside `isValidStatus` never refuses a genuine status |
| Validation.ValidateCreateItemRequest | src/lib/validation/requests.ts:39-56 | throws iff the body is `undefined`/`null`; otherwise it accepts iff both the name and the item pass their predicates, and an accepted result carries exactly those two strings, untrimmed |
| Validation.ValidateEditStatusRequest | src/lib/validation/requests.ts:58-72 | throws iff the body is `undefined`/`null`; otherwise it accepts iff the id is truthy and passes the id-format check and the status is valid, and an accepted result carries the id and status as sent, the status naming an enum member |
| Validation.NonBlankIsTruthy | src/lib/validation/requests.ts:42-47 | every non-blank string is truthy, so the falsy-field guard never refuses a field that the length predicates (which refuse blank strings) accept |
| Validation.CreateIgnoresOtherFields | src/lib/validation/requests.ts:51-54 | adding or changing any body field other than the name and the item, `status` among them, does not change the validator's verdict or its record |
| Validation.NameLengthCountsBlanks | src/lib/validation/requests.ts:11-14 | bounds are measured on the untrimmed string: " ab" is a valid name, "ab" is too short, and "   " is blank |
| RequestStatus.FromString | src/lib/validation/requests.ts:31 | a string names a status iff it is one of `Object.values(RequestStatus)`, and the status found maps back to that string |
| RequestStatus.FromStringRoundTrip | src/lib/models/requestModel.ts:17 | every status's string value is among the enum values and parses back to that status, so the four strings are distinct |
| RequestModel.FindById | src/server/requests.ts:77-81 | the lookup returns the first record whose id equals the given (already cast) id, and returns nothing iff no record has that id |
| RequestModel.SatisfiesSchema | src/lib/models/requestModel.ts:13-17 | a record satisfies the schema iff both required strings are non-empty and its status is the string value of some status |
| RequestModel.FoundRecordIsUnique | src/server/requests.ts:77-81 | in a store with unique ids, the record found is the only one with that id |
| Listing.ActiveFilter | src/server/requests.ts:44 | the status filter applies iff the parameter is present, non-empty and a valid status, and it filters on exactly that status |
| Listing.Select | src/server/requests.ts:51 | the query result contains a record iff the record is in the store and matches the filter |
| Listing.SelectCountsMatches | src/server/requests.ts:49-51 | the query returns as many records as `countDocuments` counts for the same filter |
| Listing.InsertNewestFirst | src/server/requests.ts:52 | inserting into a newest-first sequence keeps it newest first and adds exactly that one record |
| Listing.SortNewestFirst | src/server/requests.ts:52 | sorting by creation date, descending, yields a permutation of the input whose creation dates never increase |
| Listing.Window | src/server/requests.ts:53-54 | skip/limit keeps at most `limit` records, taken in order from position `skip`, and none once `skip` reaches the end |
| Listing.PageOf | src/server/requests.ts:51-54 | a page is newest first, holds only matching store records, is the run of the sorted matches that starts at `skip`, and has length `min(limit, total - skip)`, or 0 |
| Listing.SortedMatchesComeFromStore | src/server/requests.ts:51-52 | every record of the sorted query result is a store record that matches the filter |
| Listing.WindowKeepsOrder | src/server/requests.ts:52-54 | skip/limit preserves the newest-first order |
| RequestService.CreateRequest | src/server/requests.ts:15-35 | succeeds iff the database is healthy, the body validates and the new id is free. Success appends one pending record that carries the body's name and item verbatim and has both dates at `now`, the schema's default clock reading (src/lib/models/requestModel.ts:15-16). `InvalidInputError` is raised iff the connection succeeds, the body is neither `undefined` nor `null`, and the name or the item is refused. A failed connection, and the TypeError of an `undefined` or `null` body, surface as a generic error, as does every other failure. No failure changes the store |
| RequestService.Skip | src/server/requests.ts:46 | the first page skips nothing |
| RequestService.SkipNextPage | src/server/requests.ts:46 | each following page skips exactly one page size more than the one before |
| RequestService.GetItemRequests | src/server/requests.ts:37-64 | fails, with a generic error, iff the database fails. Otherwise `totalCount` is the number of matching records whatever the page, and `data` is newest first, holds only matching records, and is positions `(page-1)*pageSize` onward of the sorted matches, at most `pageSize` of them |
| RequestService.EditStatusRequest | src/server/requests.ts:66-94 | raises `InvalidInputError` iff the connection succeeds, the body is neither `undefined` nor `null`, and either the body is refused or the database is healthy and no record has the id after the store's cast `castId`. It never raises it for the id-format re-check, and a failing database gives a generic error even for an unknown id. It succeeds iff the database is healthy, the body validates and the id is found. Success changes only that record's status and `lastEditedDate` (to `now`), leaves every other record unchanged, and returns the updated record. No failure changes the store |
| RequestService.UpdateStatus | src/server/requests.ts:76-93 | the update inside the `try` succeeds iff the store is healthy and holds the cast id. It then changes exactly that record's status and edit date and returns the new version. A missing id raises `InvalidInputError`, any other failure is generic, and no failure changes the store |
| ServiceProperties.AcceptedCreateSatisfiesSchema | src/lib/models/requestModel.ts:11-20 | a new pending record built from a name and an item within the validator's bounds satisfies the schema (required strings, enum status) and the store invariant's bounds, with created = edited |
| ServiceProperties.CreatePreservesInvariant | src/server/requests.ts:15-35 | create preserves the store invariant: unique ids, schema-valid records within the bounds, and each record's edit date not before its creation date |
| ServiceProperties.EditPreservesInvariant | src/server/requests.ts:66-94 | with a clock not behind the store, edit preserves the same invariant; in particular the new status is always an enum value |
| ServiceProperties.EditAdvancesLastEdited | src/lib/models/requestModel.ts:15-16 | with a clock not behind the store, a successful edit never moves `lastEditedDate` backwards, keeps the creation date, and leaves the clock not behind the new store |
| ServiceProperties.CreateIgnoresCallerStatus | src/server/requests.ts:22-26 | whatever `status` (or other extra field) the caller sends, create returns the same outcome and the same store |
| ServiceProperties.InvalidFilterListsEverything | src/server/requests.ts:44 | a status parameter that is not a valid status yields exactly the unfiltered listing |
| Listing.NewestFirstUnique | src/server/requests.ts:52 | when no two records share a creation date, there is only one newest-first order of them |
| ServiceProperties.ListingIsOrderIndependent | src/server/requests.ts:46-54 | when no two matching records share a creation date, every page is the window of whatever newest-first order the database uses |
| ServiceProperties.TiesLeaveOrderOpen | src/server/requests.ts:52-54 | with two records created at the same instant both orders are newest first, and page 1 of one order and page 2 of the other (page size 1) both list the same record while the other is never listed |
| ServiceProperties.EveryMatchIsOnSomePage | src/server/requests.ts:46-54 | when no two matching records share a creation date, every matching record appears on some page |
| ServiceProperties.PositionIsListed | src/server/requests.ts:46-54 | when no two matching records share a creation date, position `k` of any newest-first order of the matches is listed on page `k / pageSize + 1` |
| ServiceProperties.PageContaining | src/server/requests.ts:46 | the page computed for a position is at least 1, and its skip range contains the position |
| ServiceProperties.SelectAll | src/server/requests.ts:44 | with no filter the query returns the whole store |
| ServiceProperties.InsertOldestGoesLast | src/server/requests.ts:52 | a record older than all others is sorted last |
| ServiceProperties.SortReversesCreationOrder | src/server/requests.ts:52 | records created in strictly increasing time order sort into the reverse of that order |
| ServiceProperties.NewestFirstRoundTrip | src/server/requests.ts:37-64 | records created one after another, listed unfiltered on a page that fits them all, come back as the reverse of the store, with the full count |
| ServiceProperties.CreateKeepsCreationOrder | src/server/requests.ts:22-27 | creating at a clock later than every stored date keeps creation dates strictly increasing along the store |
| Scenarios.CreateOnEmptyStore | src/server/requests.ts:15-28 | a valid create on an empty store stores and returns one pending record dated `now` |
| Scenarios.PatchIsAccepted | src/lib/validation/requests.ts:58-72 | an edit body with a non-empty, well-formed id and a status string is accepted as sent |
| Scenarios.EditOnlyRecord | src/server/requests.ts:66-87 | editing the only record sets its status and edit date and nothing else |
| Scenarios.ListByOwnStatus | src/server/requests.ts:37-59 | a one-record store filtered by the record's own status lists that record, with a total of 1 |
| Scenarios.ListByUnknownStatus | src/server/requests.ts:37-59 | a one-record store filtered by a string that is no status lists that record too, with a total of 1 |
| Scenarios.CreateApproveList | src/server/requests.ts:15-94 | create, approve at a later clock, then list: the record is pending, then approved with its creation date kept and edited at the later clock, and it is the single result of the `approved` listing and of an unknown-status listing |

## Left out

- `src/server/db.ts` (the connect-once flag and `mongoose.connect`) is not part of this model. A failed connection is the `Unreachable` backend, and a failing save, query or update is the `Failing` backend. Both surface as the generic error.
- The HTTP layer `src/app/api/request/route.ts` is not modelled. There, a non-numeric `page` parses to `NaN` rather than 1, and the PATCH handler does not await `editStatusRequest`, so its errors escape the handler's `try`. Status codes are not modelled either.
- The React components (`Table.tsx`, `Dropdown.tsx`) are UI state and fetching, and are not modelled. Only the lowercase status strings are taken from the filter tabs, because the enum's own file is not part of this model.
- `ObjectId.isValid` and `mongoose.Types.ObjectId.isValid` are the same uninterpreted parameter `isValidId`.
- RequestModel.FindById: compares ids exactly. The cast that `findByIdAndUpdate` applies first (upper-case hex, 12-byte strings) is the uninterpreted parameter `castId` of `EditStatusRequest`, applied only to ids that passed `isValidId`; nothing is assumed about it.
- Record ids are strings. An id of any JSON type that passes `isValidId` goes through `castId`, so a number could find a record if the cast maps it to a stored id. A cast that throws inside `findByIdAndUpdate` is caught at src/server/requests.ts:88-92 and re-thrown as a generic error; that is the `Failing` backend.
- Each call sees one snapshot of the store. The source counts with `countDocuments` and reads with `find`, two separate queries, so a concurrent write between them can make `totalCount` disagree with `data`. The model computes both from one store, and concurrency is not modelled.
- `PAGINATION_PAGE_SIZE` is defined in a file that is not part of this model. It is the parameter `pageSize`, required positive.
- RequestService.GetItemRequests: requires `page >= 1`. The source does not guard the page, and a smaller page gives a negative skip. `NaN` and fractional pages are not modelled.
- RequestService.GetItemRequests: fixes one tie order per call (the sort keeps store order among equal creation dates). The database may break ties differently on each query, so a record can then appear on two pages and another on none (`TiesLeaveOrderOpen`). The paging lemmas `EveryMatchIsOnSomePage` and `PositionIsListed` therefore require that no two matching records share a creation date; under that condition `ListingIsOrderIndependent` shows every newest-first order gives the same pages.
- RequestService.CreateRequest: the id the database generates is the parameter `freshId`. A taken id is a generic save failure.
- RequestService.CreateRequest: both dates take one clock reading `now`. In the source each default calls the clock separately, so the two could differ by a tick.
- Dates are natural numbers, not `Date` values.
- Strings are sequences of code points. A lone surrogate cannot be represented, so the UTF-16 length is derived from code points.
- Error messages and logging (`console.error`) are not modelled. Only the kind of error is.
