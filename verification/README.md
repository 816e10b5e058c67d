# Owner-scoped todo store, modelled in Dafny

This project models the todo service of a NestJS backend. The service keeps a
table of todo items. Each item belongs to exactly one user. It serves five
operations on behalf of the authenticated caller's `userId`:

- **create** a todo owned by the caller, applying column defaults;
- **findAll**: list the caller's todos through status, priority and
  title-search filters, ordered, paged, with the total count and page count;
- **findOne**: get one todo;
- **update**: patch one todo;
- **remove**: delete one todo.

The last three answer `NotFound` when the todo is missing and also when it
belongs to someone else, so other users' rows are invisible.

The request payloads are modelled as well:

- the create body with its field validators;
- the listing query, with its defaults and its `Min(1)` bounds on `page` and
  `limit`.

Modules. `TodoEntity`, `CreateTodoDto`, `QueryTodoDto` and `TodosService`
each follow one source file. `Common`, `Seqs` and `TodosProperties` are
supporting modules with no source counterpart:

- `Common`: `Option`, `Result`, and the two errors the core raises. These are
  the 404 `NotFound` and the 400 `BadRequest`, which names every failing field.
- `Seqs`: sequence building blocks for the listing pipeline:
  - `Filter` for the WHERE clause;
  - insertion `Sort` under a comparator for ORDER BY;
  - `Window` for OFFSET/LIMIT;
  - `Contains` for `LIKE '%s%'`;
  - `CeilDiv` for `Math.ceil(total / limit)`.
- `TodoEntity`: the `Todo` record, the `Priority` enum, column defaults, and
  the table as `Store(rows: map<nat, Todo>, nextId)`. `nextId` is the
  auto-increment sequence. `Valid` states that ids are generated, unique and
  match their keys.
- `CreateTodoDto`: the JSON body as `map<string, Json>`, validation
  (`CreateErrors`, `ValidateCreate`), and the typed `CreateTodo`.
- `QueryTodoDto`: query-string parameters as `map<string, string>`, numeric
  coercion of `page` and `limit`, validation, and defaulting.
- `TodosService`: the five operations as pure functions over `Store`. The
  mutating ones return the new table beside their result.
- `TodosProperties`: properties that relate several calls. These cover owner
  isolation, delete-then-get, patch idempotence, what the filters mean, paging
  arithmetic, and an end-to-end walkthrough.

The listing is modelled as a pipeline over the rows:

1. Scan the table in primary-key order.
2. Keep the rows satisfying `Matches`. That is the owner test, AND the status
   filter, AND the priority filter, AND the search filter.
3. Sort with the ordering the store uses for the query's `sortBy` and
   `sortOrder`. This ordering is a parameter `orderFor(sortBy, sortOrder)`.
4. Cut the window `[(page-1)*limit, (page-1)*limit + limit)`.

Three behaviours of the code are worth stating plainly:

- **Title:** `title` is only checked with `IsString`
  (`create-todo.dto.ts:5-6`), so `""` is accepted.
- **Status:** `status` is compared with `"completed"` and nothing else
  (`todos.service.ts:31-35`). Every other non-empty status string, `pending`
  included, selects the rows that are not completed. An empty or absent
  status filters nothing.
- **Sort column:** `sortBy` is only checked with `IsString` and is placed into
  the ORDER BY unchecked (`todos.service.ts:46`). The model abstracts the
  ordering instead.

## Model

| member | source | states |
|---|---|---|
| TodoEntity.ParsePriority | backend/src/todos/entities/todo.entity.ts:4-8 | a string denotes a priority only if it is the name of `low`, `medium` or `high`; any other string denotes none |
| TodoEntity.PriorityRoundTrip | backend/src/todos/entities/todo.entity.ts:4-8 | each of the three priorities is read back from its own name |
| CreateTodoDto.CreateErrors | backend/src/todos/dto/create-todo.dto.ts:5-22 | each field is reported exactly when its validator fails: `title` when it is missing or not a string; `description` when present, non-null and not a string; `dueDate` when present, non-null and not a date string; `priority` when present, non-null and not one of the enum values; `isCompleted` when present, non-null and not a boolean |
| CreateTodoDto.ValidateCreate | backend/src/todos/dto/create-todo.dto.ts:5-22 | a body is accepted exactly when no validator fails, and a rejected body's 400 names exactly the failing fields; an accepted body yields a payload whose fields are exactly the body's string, enum and boolean values, with omitted or null optional fields absent; a body without a string title, or with a non-enum priority, is rejected naming that field |
| CreateTodoDto.ValidateToBody | backend/src/todos/dto/create-todo.dto.ts:5-22 | round trip: validating the body a client sends for a payload returns that payload |
| CreateTodoDto.ValidateIgnoresUnknownKeys | backend/src/main.ts:8-11 | keys outside the five allowed fields, `userId` included, never affect the outcome of validation (whitelisting) |
| QueryTodoDto.ParseDecimal | backend/src/todos/dto/query-todo.dto.ts:18-28 | a parameter is numeric exactly when it is a non-empty run of decimal digits |
| QueryTodoDto.ParseShow | backend/src/todos/dto/query-todo.dto.ts:18-28 | round trip: a number written into the query string is read back as itself |
| QueryTodoDto.QueryErrors | backend/src/todos/dto/query-todo.dto.ts:6-36 | `priority` fails exactly when it is not an enum value; `page` and `limit` fail exactly when present and not a number of at least 1; status, search, sortBy and sortOrder never fail |
| QueryTodoDto.FillDefaults | backend/src/todos/dto/query-todo.dto.ts:18-36 | omitted page is 1, limit 10, sortBy `createdAt`, sortOrder `DESC`; given values are kept; the result always has page and limit at least 1 |
| QueryTodoDto.ParseQuery | backend/src/todos/dto/query-todo.dto.ts:6-36 | a query is accepted exactly when it validates; the accepted query is the one with defaults filled in, so its page and limit are at least 1; a rejected query's 400 names exactly the failing parameters |
| QueryTodoDto.RejectsNonPositive | backend/src/todos/dto/query-todo.dto.ts:18-28 | a page or limit that is empty or all zeros, starts with `-`, or is made only of letters is rejected, naming that parameter (each of these is below 1 or not a finite number after the source's number coercion) |
| QueryTodoDto.EmptyQueryDefaults | backend/src/todos/dto/query-todo.dto.ts:18-36 | the empty query becomes page 1, limit 10, createdAt, DESC, no filters |
| TodosService.Create | backend/src/todos/todos.service.ts:16-22 | the new row is owned by the caller and carries the payload's fields; priority defaults to medium and isCompleted to false; its id is the next value of the id sequence, which then advances, so it was never handed out before; no other row changes; the table invariant is kept |
| TodosService.FindOne | backend/src/todos/todos.service.ts:61-71 | succeeds exactly when the id exists and is owned by the caller, returning that row; otherwise `NotFound("Todo not found")` |
| TodosService.ApplyPatch | backend/src/todos/todos.service.ts:75 | each field present in the patch is overwritten; every absent field, and `id` and `userId`, keep their values |
| TodosService.Update | backend/src/todos/todos.service.ts:73-77 | succeeds exactly when findOne does; on failure the table is unchanged and the error is NotFound; on success only that row changes, to the patched row, which is returned |
| TodosService.Remove | backend/src/todos/todos.service.ts:79-83 | succeeds exactly when findOne does; on success only that id leaves the table and findOne on it then fails; on failure the table is unchanged |
| TodoEntity.ValidIdsUnique | backend/src/todos/entities/todo.entity.ts:12-13 | in a valid table no two rows share an id, every id lies in `[1, nextId)`, and `nextId` is free |
| TodosService.StatusFilter | backend/src/todos/todos.service.ts:31-35 | the status filter applies exactly when a non-empty status is given, and then asks for completed rows exactly when the status is `completed` |
| TodosService.Matches | backend/src/todos/todos.service.ts:27-43 | only the caller's rows match; with no status, priority or search filter, every row of the caller matches |
| TodosService.ListingSound | backend/src/todos/todos.service.ts:27-43 | every row of the ordered listing is a row of the table, owned by the caller, and passes every filter |
| TodosService.ListingComplete | backend/src/todos/todos.service.ts:27-43 | every row of the table that is the caller's and passes every filter is in the listing |
| TodosService.ListingCount | backend/src/todos/todos.service.ts:50 | the listing's length is the number of matching ids |
| TodosService.ScanRangeCount | backend/src/todos/todos.service.ts:50 | the number of selected rows in a key-ordered scan is the number of selected ids |
| TodosService.Paginate | backend/src/todos/todos.service.ts:45-57 | at most `limit` entries; empty exactly when the skip `(page-1)*limit` is at or past the end; a full page whenever enough rows remain; entry `i` is row `skip + i`; `total` counts all rows; `totalPages*limit >= total`, and `totalPages*limit < total + limit` when there are rows; no rows gives 0 pages |
| TodosService.FindAll | backend/src/todos/todos.service.ts:24-59 | every returned row is the caller's, matches every filter, and is a row of the table; at most `limit` rows; `data` is the window at `(page-1)*limit` of the ordered listing; `total` is the number of matching rows whatever the page |
| Seqs.Filter | backend/src/todos/todos.service.ts:27-43 | selection keeps exactly the elements satisfying the condition, and nothing new |
| Seqs.Window | backend/src/todos/todos.service.ts:47-48 | at most `take` elements; empty when `skip` is past the end; otherwise element `i` is element `skip + i` of the input, clipped to its length |
| Seqs.Sort | backend/src/todos/todos.service.ts:46 | ordering permutes the rows (same multiset) |
| Seqs.SortSorted | backend/src/todos/todos.service.ts:46 | under a total preorder the ordered rows are sorted |
| Seqs.ContainsIff | backend/src/todos/todos.service.ts:41-43 | the search test holds exactly when the search string occurs in the title at some offset |
| Seqs.CeilDiv | backend/src/todos/todos.service.ts:57 | `totalPages * limit >= total`; when `total > 0`, `(totalPages - 1) * limit < total`; `total = 0` gives 0 pages |
| TodosProperties.CreateThenFindOne | backend/src/todos/todos.service.ts:16-22 | a created todo is found under its id by its creator and is NotFound for any other user |
| TodosProperties.CreateIgnoresPayloadOwner | backend/src/todos/todos.service.ts:17-20 | a body naming some other `userId` still creates a row owned by the caller |
| TodosProperties.ForeignLooksMissing | backend/src/todos/todos.service.ts:61-70 | findOne on another user's id gives the same outcome as on an id that does not exist |
| TodosProperties.ApplyEmptyPatch | backend/src/todos/todos.service.ts:75 | a patch with no fields changes nothing |
| TodosProperties.UpdateIdempotent | backend/src/todos/todos.service.ts:73-77 | sending the same patch twice gives the table and result of sending it once |
| TodosProperties.RemoveThenNotFound | backend/src/todos/todos.service.ts:79-83 | after a delete, get, patch and delete on that id all give NotFound and leave the table as it is; the table is the old one without that id |
| TodosProperties.DeletedIdNeverReissued | backend/src/todos/entities/todo.entity.ts:12-13 | an id that was in the table is not handed out again by a create after a delete, so a deleted id stays missing |
| TodosProperties.CreateInvisibleToOthers | backend/src/todos/todos.service.ts:16-22 | a create never changes another user's rows |
| TodosProperties.UpdateInvisibleToOthers | backend/src/todos/todos.service.ts:73-77 | a patch never changes another user's rows |
| TodosProperties.RemoveInvisibleToOthers | backend/src/todos/todos.service.ts:79-83 | a delete never changes another user's rows |
| TodosProperties.FilterScanAgree | backend/src/todos/todos.service.ts:27-29 | two tables that agree on the selected rows give the same filtered scan |
| TodosProperties.SelectionSeesOnlyOwnRows | backend/src/todos/todos.service.ts:27-43 | two tables in which a user owns the same rows select the same rows for that user, in the same order, under any filters |
| TodosProperties.FindAllSeesOnlyOwnRows | backend/src/todos/todos.service.ts:27-29 | two tables in which a user owns the same rows give that user the same listing page, total and page count |
| TodosProperties.OthersCannotChangeMyListing | backend/src/todos/todos.service.ts:24-83 | no create, update or remove by another user changes what a user lists |
| TodosProperties.ListingMembership | backend/src/todos/todos.service.ts:27-43 | a row is listed iff it is the caller's; status `completed` requires isCompleted; any other non-empty status requires not isCompleted; a priority requires that priority; a non-empty search requires the title to contain it |
| TodosProperties.FiltersOnlyNarrow | backend/src/todos/todos.service.ts:31-43 | each filter only narrows the selection: dropping the status, priority or search filter keeps every match |
| TodosProperties.ListingOrdered | backend/src/todos/todos.service.ts:46 | the listing is sorted by the requested ordering |
| TodosProperties.FindAllOrdered | backend/src/todos/todos.service.ts:45-48 | each page is sorted by the requested ordering |
| TodosProperties.PageStartsBeforeEnd | backend/src/todos/todos.service.ts:47-57 | with `tp = ceil(total/limit)`, the skip `(page-1)*limit` is below `total` exactly when `page <= tp` |
| TodosProperties.PageCountCovers | backend/src/todos/todos.service.ts:50-57 | the reported pages hold every matching row: `totalPages*limit >= total` |
| TodosProperties.PageCountTight | backend/src/todos/todos.service.ts:50-57 | no surplus page: `totalPages*limit < total + limit` when there are rows; 0 pages when there are none |
| TodosProperties.TotalIgnoresPage | backend/src/todos/todos.service.ts:45-57 | `total` and `totalPages` are the same whichever page is requested |
| TodosProperties.PageHasRows | backend/src/todos/todos.service.ts:45-48 | a page has rows exactly when its skip is below the total |
| TodosProperties.PageNonEmptyIff | backend/src/todos/todos.service.ts:45-57 | a page has rows exactly when `page <= totalPages`; a page beyond the end is empty |
| TodosProperties.PaginateNonEmptyIff | backend/src/todos/todos.service.ts:45-57 | for any ordered rows, a page has entries exactly when `page <= ceil(total/limit)` |
| TodosProperties.PageOf | backend/src/todos/todos.service.ts:47 | row `i` lies on page `p >= 1` with `(p-1)*limit <= i < (p-1)*limit + limit` |
| TodosProperties.PageHoldsRow | backend/src/todos/todos.service.ts:45-57 | for any ordered rows, row `i` is entry `i - (p-1)*limit` of page `p = PageOf(i, limit)` |
| TodosProperties.EveryRowOnItsPage | backend/src/todos/todos.service.ts:45-48 | row `i` of the ordered listing is on page `PageOf(i, limit)` at offset `i - (p-1)*limit`, given the model's fixed order of tied rows |
| TodosProperties.FifteenRowsSecondPage | backend/src/todos/todos.service.ts:45-57 | with 15 matching rows, page 2 of limit 10 holds 5 rows, total 15, 2 pages |
| TodosProperties.MilkBodyValidates | backend/src/todos/dto/create-todo.dto.ts:5-18 | the body `{title: "Buy milk", priority: "low"}` validates to that payload |
| TodosProperties.MilkListed | backend/src/todos/todos.service.ts:24-59 | after creating it in an empty table, the default listing has one row and one page |
| TodosProperties.MilkDoneThenDeleted | backend/src/todos/todos.service.ts:61-83 | after marking it completed, get shows it completed with title and priority kept; after deleting it, get is NotFound |
| TodosProperties.BuyMilkScenario | backend/src/todos/todos.service.ts:16-83 | the walkthrough above end to end: create, list, update, get, delete, get |

## Left out

- **Authentication.** JWT issuing and checking, the `JwtAuthGuard` on the
  controller, password hashing and the user table are not modelled. The
  caller's `userId` is a trusted input to every operation.
- **ORM internals.** The query builder, `getManyAndCount`, and save/remove
  round trips are replaced by pure functions over a map. Store failures (the
  generic 500) are not modelled.
- **Search matching.** `LIKE` details are left out: `%` and `_` in the search
  string act as wildcards in SQL, and collation may make the match
  case-insensitive. The model uses plain, case-sensitive substring
  containment.
- **Ordering.** How a `sortBy` column name and a `sortOrder` string become an
  ordering is a parameter, `orderFor`. This leaves out unknown columns and
  directions other than `ASC`/`DESC`. The database leaves the order of tied
  rows open; the model fixes it as a stable sort of the key-ordered scan.
- **Timestamps and dates.** `createdAt` and `updatedAt` depend on the clock
  and are not modelled. `dueDate` keeps the validated string; the
  `IsDateString` check is an abstract parameter `isDate`, and parsing into a
  date is left out.
- **Route glue.** The controller's `+id` string-to-number conversion is left
  out: `FindOne`, `Update` and `Remove` take an integer id. Routing, CORS and
  the server bootstrap are also left out.
- **Update payload.** `UpdateTodoDto` is not part of this model. The patch is
  an optional-per-field record over the create fields, with no validation of
  its own. An explicit `null` in a patch, which would clear a nullable field,
  is not modelled.
- CreateTodoDto.ValidateCreate: an explicit `null` for `priority` or
  `isCompleted` is treated as omitted, so the column default applies. In the
  source the null goes to the database, and the result depends on the
  database.
- CreateTodoDto.Json: JSON arrays, objects and fractional numbers are not
  modelled. Each fails the string, boolean and enum validators just as a
  number does.
- QueryTodoDto.ParseDecimal: only plain digit strings count as numbers, read
  as exact unbounded integers. In the source, `page` and `limit` become
  JavaScript doubles (`@Type(() => Number)`), and three consequences are not
  modelled:
  - `Number()` also accepts surrounding whitespace, a leading `+`,
    exponents, hex, and fractions such as `1.5`. A fractional page or limit
    passes `Min(1)` in the source.
  - A digit string beyond about 1.8e308 becomes `Infinity`, which
    `IsNumber` rejects; the model accepts it.
  - Digit strings above 2^53 are rounded.

  The skip `(page - 1) * limit` is likewise a floating-point product in the
  source, exact in the model.
- QueryTodoDto.RejectsNonPositive: names only inputs that the source
  rejects as well. The model also rejects `+5`, ` 5`, `1e1` and `0x10`, which
  the source accepts (see the line above); the lemma claims nothing about
  them.
- **Concurrency.** Each operation is modelled as one atomic step. In the
  source, update is a `findOne` then a `save` (`todos.service.ts:74-76`),
  and remove is a `findOne` then a `remove` (`todos.service.ts:80-81`):
  two separate round trips to the store. Interleavings of concurrent
  requests are left out. An example is an update racing a delete of the same
  row, where `save` may insert the row again.
- **Repeated query parameters.** A parameter given twice arrives as an array;
  this is not modelled.
- **Page count arithmetic.** `Math.ceil(total / limit)` is computed in
  floating point in the source. The model uses exact integer ceiling division,
  which agrees for every count a table can hold.
- **Out of scope.** The frontend and the development seed script are not part
  of the service core.
