# User service of the farm-management backend, modelled in Dafny

This project models `UsersService` of the farm-management REST backend: the service
behind the `/users` endpoints that lists users page by page with an optional search
term, reads one user, patches one user and deletes one user. Users come out of the
service without their secret PIN.

The database is replaced by an in-memory table (`Store.UserStore`). It holds a map from
user id to row and answers the five calls the service makes: `findUnique`, `findMany`,
`count`, `update` and `delete`. The table keeps the constraints the service depends on.
Each row is stored under its own id, email and phone number are unique, and every
joined farm points back at its owner. A ghost counter `writes` counts the `update` and
`delete` calls issued to the table. With it, "the write is never reached" can be stated.

Modules, leaves first:

- `Wrappers`: `Option` and `Result`.
- `Users`: the stored row, the public (PIN-less) view, redaction, and the sparse update
  payload (`UserPatch`, one optional field per property of `UpdateUserDto`).
- `Search`: the `where` clause. An absent or empty term matches every row. Otherwise a
  row matches when the term is a case-insensitive substring of `firstName`, `lastName`
  or `email`, or a case-sensitive substring of `phoneNumber`.
- `Pagination`: normalising `page` and `limit`, `skip`, the window of rows a page
  shows, the ceiling page count and the `meta` object.
- `Conflicts`: the service errors (`NotFound`, `Conflict`, a store error passed on
  unchanged) and the translation of a uniqueness violation raised by `update`.
- `Store`: the in-memory table and its listing and count queries.
- `Service`: the `UsersService` class, with `FindAll`, `FindOne`, `Update` and `Remove`.

Store failures other than the uniqueness check are a parameter. `Update` and `Remove`
take `fault: Option<DbError>`, a failure the database may report instead of performing
the write (a lost connection, a foreign-key refusal, a violation on some other column).

## Model

| member | source | states |
|---|---|---|
| `Pagination.NormalisePage` | src/users/users.service.ts:9-10 | The page is at least 1. A positive page passes through unchanged. An absent or non-positive page becomes 1. |
| `Pagination.NormaliseLimit` | src/users/users.service.ts:11 | The limit is at least 1. A positive limit passes through unchanged. An absent or non-positive limit becomes 10. |
| `Pagination.NormaliseIdempotent` | src/users/users.service.ts:10-11 | Normalising an already normalised page or limit changes nothing. |
| `Pagination.Skip` | src/users/users.service.ts:12 | The skip is a whole number of pages: exactly `page - 1` full pages of `limit` rows, with nothing left over. |
| `Pagination.SkipSteps` | src/users/users.service.ts:12 | Page 1 skips nothing. Each further page skips one more full page. The skip is positive exactly when the page is past the first. |
| `Pagination.Window` | src/users/users.service.ts:24-27 | `skip`/`take` yields at most `take` rows. Row `i` of the window is row `skip + i` of the listing. The window is empty when `skip` is past the end. |
| `Pagination.PageCount` | src/users/users.service.ts:38 | The page count is the integer ceiling of total/limit: `(pages - 1) * limit < total <= pages * limit`. |
| `Pagination.PageCountUnique` | src/users/users.service.ts:38 | Only one number satisfies those ceiling bounds. |
| `Pagination.PageMeta` | src/users/users.service.ts:42-48 | `meta` carries the total, the page and the ceiling page count. `hasNextPage` holds exactly when rows exist past this page (`skip + limit < total`). `hasPrevPage` holds exactly when the page skips rows. |
| `Pagination.NextPageIffRowsRemain` | src/users/users.service.ts:46 | `hasNextPage` holds exactly when rows of the listing remain after the rows the page actually shows. |
| `Pagination.PagesPartitionListing` | src/users/users.service.ts:38 | Walking pages 1 to `pages` shows every row of the listing exactly once and in order, and page `p` of the walk is the window at `Skip(p, limit)`. |
| `Pagination.PagesFromCount` | src/users/users.service.ts:38 | The pages from an offset on number the ceiling of the remaining rows over the limit. |
| `Pagination.MetaExample` | src/users/users.service.ts:38-48 | 25 rows, page 2, limit 10 give pages 3 with both flags true. |
| `Search.Contains` | src/users/users.service.ts:19 | A term longer than the field is never found. The empty term is found in every field. |
| `Search.ContainsInsensitive` | src/users/users.service.ts:16-18 | `contains` with `mode: 'insensitive'` holds exactly when the lower-cased term is a substring of the lower-cased field. |
| `Search.MatchesTerm` | src/users/users.service.ts:15-20 | The OR over the four fields. A row can match only if one of the four fields is at least as long as the term. |
| `Search.Satisfies` | src/users/users.service.ts:14-21 | A row is excluded only by a filter that carries a non-empty term. The empty `where` excludes nothing. |
| `Search.ContainsIsSubstring` | src/users/users.service.ts:16-19 | `contains` holds exactly when the term occurs at some position of the field. |
| `Search.BuildWhere` | src/users/users.service.ts:14-21 | No filter is built when the term is absent or empty (an empty string is falsy). Otherwise the filter carries the term unchanged. |
| `Search.NoTermMatchesEveryRow` | src/users/users.service.ts:14-21 | Without a search term every row matches. |
| `Search.SearchRule` | src/users/users.service.ts:15-20 | For a term `s`, a row matches iff lower-cased `s` is a substring of lower-cased firstName, lastName or email, or `s` itself is a substring of phoneNumber. |
| `Search.EmptyTermMatchesEveryRow` | src/users/users.service.ts:14 | The OR filter with an empty term would match every row too, so skipping the filter for it changes no result. |
| `Search.ExactImpliesInsensitive` | src/users/users.service.ts:16-19 | An exact-case occurrence is also a case-insensitive one. |
| `Search.PhoneMatchKeepsCase` | src/users/users.service.ts:19 | The phone comparison keeps case: "ext7" is found case-insensitively in "EXT7" but not by the phone comparison. |
| `Users.Redact` | src/users/users.service.ts:64-65 | Redaction drops the PIN and nothing else: putting the row's own PIN back gives the stored row, farms included. |
| `Users.RedactAll` | src/users/users.service.ts:41 | One redacted record per listed row, in the same order. |
| `Users.RedactForgetsOnlyPin` | src/users/users.service.ts:85-86 | Two rows have the same public view exactly when they differ at most in their PIN. |
| `Users.RedactRestore` | src/users/users.service.ts:64-65 | Re-attaching a PIN and redacting again gives back the public record. |
| `Users.ApplyPatch` | src/users/dto/update-user.dto.ts:9-65 | A present payload field overwrites its column and an absent one keeps it. An explicit null for `middleName` clears it. id, phoneNumber, pin, createdAt and farms never change. |
| `Users.EmptyPatchIsIdentity` | src/users/dto/update-user.dto.ts:9-65 | An empty payload changes nothing. |
| `Users.PatchIdempotent` | src/users/users.service.ts:78-80 | Applying the same payload twice has the effect of applying it once. |
| `Users.PatchComposes` | src/users/users.service.ts:78-80 | Two successive payloads act as one merged payload in which the later field wins. |
| `Conflicts.NotFoundMessage` | src/users/users.service.ts:61 | The NotFound message is `User with ID <id> not found` and carries the requested id verbatim between its fixed prefix and suffix. |
| `Conflicts.NotFoundMessageInjective` | src/users/users.service.ts:61 | Different ids give different NotFound messages. |
| `Conflicts.TranslateWriteError` | src/users/users.service.ts:87-96 | A P2002 whose target includes `email` becomes the email Conflict. Failing that, one whose target includes `phoneNumber` becomes the phone Conflict. Every other error, including a P2002 with another or a missing target, is passed on unchanged. Never NotFound. |
| `Conflicts.EmailWins` | src/users/users.service.ts:89-93 | Every P2002 whose target names both email and phoneNumber is reported as the email conflict, whatever else the target names. |
| `Conflicts.UnknownTargetRethrown` | src/users/users.service.ts:96 | Every P2002 whose target names neither email nor phoneNumber, or has no target, is passed on as it came. |
| `Store.Clash` | src/users/users.service.ts:78-84 | A write is refused exactly when it would share its email or phone number with another row. Email is reported when it clashes. |
| `Store.PatchClashIsEmail` | src/users/users.service.ts:78-84 | On a consistent table a patched row can only clash on email, and only when the payload sets an email another user holds. |
| `Store.PatchKeepsInvariant` | src/users/users.service.ts:78-84 | Writing a patched row that clashes with nothing keeps ids, unique emails, unique phone numbers and farm ownership. |
| `Store.DeleteKeepsInvariant` | src/users/users.service.ts:109-111 | Deleting a row keeps the table's constraints. |
| `Store.InsertNewestFirst` | src/users/users.service.ts:31-33 | Inserting a row into a newest-first listing keeps it newest-first, and the result holds exactly the old rows plus the new one. |
| `Store.SortedMatches` | src/users/users.service.ts:24-34 | The computed listing holds each matching row exactly once, ordered by createdAt descending. |
| `Store.CountMatching` | src/users/users.service.ts:35 | The computed count is the number of rows that satisfy the filter. |
| `Store.ListingLength` | src/users/users.service.ts:23-36 | A listing is exactly as long as the count for the same filter, so `total` and `data` agree. |
| `Store.ListingRowsMatch` | src/users/users.service.ts:24-34 | Every listed row is the stored row under its id and satisfies the filter. |
| `Store.ListingComplete` | src/users/users.service.ts:24-34 | Every stored row that satisfies the filter is listed. |
| `Store.ListingHasNoDuplicates` | src/users/users.service.ts:24-34 | No row is listed twice. |
| `Store.UserStore.constructor` | src/users/users.service.ts:7 | The table starts with the given consistent rows and no writes. |
| `Store.UserStore.FindUnique` | src/users/users.service.ts:53-58 | The lookup finds a row exactly when the id is stored, and returns that row. |
| `Store.UserStore.Count` | src/users/users.service.ts:35 | `count({ where })` is the number of rows satisfying the filter. |
| `Store.UserStore.FindMany` | src/users/users.service.ts:24-34 | `findMany` returns the `skip`/`take` window of a newest-first listing of exactly the matching rows. |
| `Store.UserStore.Update` | src/users/users.service.ts:78-84 | One write. An injected fault or a missing id leaves the table unchanged. A clash yields P2002 with the clashing column and leaves the table unchanged. Otherwise only that row is replaced by the patched row. |
| `Store.UserStore.Delete` | src/users/users.service.ts:109-111 | One write. It fails and changes nothing on a fault or a missing id. Otherwise it removes exactly that key. |
| `Service.UsersService.constructor` | src/users/users.service.ts:7 | The service keeps the store it is given. |
| `Service.PageShowsMatchingRows` | src/users/users.service.ts:24-41 | A page cut from a listing shows at most `limit` records. Record `i` is the redacted listing row `skip + i`, which is a stored row satisfying the filter. |
| `Service.PageMetaDescribesListing` | src/users/users.service.ts:35-48 | The page's `total` is the listing's length. `hasNextPage` holds iff matching rows follow the rows shown. `hasPrevPage` holds iff the page is past 1. |
| `Service.UsersService.FindAll` | src/users/users.service.ts:9-50 | `data` is the redacted window `[skip, skip + limit)` of a newest-first listing of exactly the matching rows. `meta` is built from the matching count with the normalised page and limit. `total` equals the listing's length and `data` holds at most `limit` records. |
| `Service.UsersService.FindOne` | src/users/users.service.ts:52-66 | A stored id gives its redacted row. An absent id gives NotFound naming the id. |
| `Service.UsersService.Update` | src/users/users.service.ts:68-98 | Every error leaves the table unchanged. An absent id gives NotFound and issues no write. Otherwise exactly one write is issued. A store fault is translated. A payload email held by another user gives the email Conflict. Otherwise the row becomes the patched row and its redacted form is returned. |
| `Service.UsersService.Remove` | src/users/users.service.ts:100-114 | An absent id gives NotFound, leaves the table unchanged and issues no write. A store fault is passed on unchanged. Otherwise exactly that key is deleted and `User deleted successfully` is returned. |
| `Service.RemoveTwice` | src/users/users.service.ts:100-113 | Removing an existing user twice deletes it once. The second call reports NotFound and issues no write. |
| `Service.UpdateThenFindOne` | src/users/users.service.ts:52-86 | After a successful update, reading the same id returns exactly what the update returned. A failed update leaves the table as it was. |
| `Service.EmailConflictScenario` | src/users/users.service.ts:88-90 | With u1 (a@x.com) and u2 (b@x.com) stored, moving u2 to a@x.com fails with "Email is already in use by another user." and both emails stay as they were. |

## Left out

- `Pagination.NormalisePage`, `Pagination.NormaliseLimit`: JavaScript's `Number(...)` coercion of query strings is not modelled, because `page` and `limit` are integers here. That excludes NaN (which falls back to the default) and fractional values (which pass through). The integers are also unbounded: in the source `(page - 1) * limit` is a double that is exact only up to 2^53, and `skip` and `take` go to the database client as bounded integers, so a large enough `page` or `limit` makes the query fail. The model has no such bound and returns an empty window instead.
- `Pagination.PageCount`: computes the ceiling with integer division instead of floating-point `Math.ceil`, because the two agree on every non-negative integer total and positive integer limit.
- `Service.UsersService.FindAll`: the `findMany` and `count` queries run concurrently in the source (`Promise.all`). Here they are two sequential reads of the same unchanged table, so there is no read-committed race window between them.
- `Search.ContainsInsensitive`: case-insensitive matching folds ASCII letters only, because the database's locale-dependent folding is not part of this model. `contains` is a plain substring test, with no special meaning for `%` or `_`.
- `Store.UserStore.FindMany`: the order among rows with equal `createdAt` is left open (any newest-first listing is accepted), because the database does not fix it.
- `Users.ApplyPatch`: takes only the fields `UpdateUserDto` declares. Properties a request body carries beyond the DTO are not modelled, because the validation pipe's configuration is not part of this model. `@IsOptional()` also lets an explicit `null` through: the model carries it for `middleName`, the only nullable column, where it clears the column. A `null` for a non-nullable field (for example `firstName`) makes the write fail with an error other than P2002; the model does not derive that failure from the payload, and it reaches `Update` only as a `fault`, which is rethrown. `updatedAt` maintenance is not modelled.
- `Conflicts.TargetIncludes`: `meta.target` is modelled as a list of column names. A target reported as a single constraint-name string, where `includes` would be a substring test, is not modelled.
- How the database detects failures other than a unique email or phone number is not modelled. Such failures enter as the `fault` parameter of `Update` and `Remove`. That includes a foreign-key refusal to delete a user who owns farms, since the schema's cascade rule is not part of this model.
- The race in which a row disappears between the existence check and the write (the store's P2025) cannot occur in this sequential model.
- Farms are carried inside each stored user as the joined list. Farm creation, lookup and the farms controller are not part of this model; its handlers delegate to a `FarmsService` whose code is not part of this model.
- The JWT guard, dependency injection, request validation and the mapping of exceptions to HTTP statuses are left out, because they are framework behaviour outside the service.
