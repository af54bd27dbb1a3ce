# User registry domain layer, in Dafny

This project models the domain layer of the `ppcc` user service, a registry of people
keyed by a generated UUID and identified by their CPF (the Brazilian taxpayer number).
Records are never removed. Deleting one stamps its `deletedAt`, and from then on the
active-record lookups and searches no longer see it.

The model has one module per component of the service:

- `UserEntity` (`user.dfy`): the `User` record, its field defaults, its identity-only
  `equals` and its constant `hashCode`.
- `UserExtensions` (`user_extensions.dfy`): the copy-constructors.
  - creation from the creation payload;
  - the sparse merge, where a null or blank value keeps the old one;
  - the dense merge, where values replace the old ones verbatim;
  - soft deletion;
  - the mapping to the response shape.
- `UserRepository` (`user_repository.dfy`): what each repository query selects from the
  table (a sequence of rows in storage order).
  - the three `findFirst…` lookups;
  - the four paged `findAll…` queries;
  - their `COUNT(u.id)` count queries.
- `PageRequestExtensions` (`page_request.dfy`): how a search builds its page request.
  Missing entries default to page 0, size 20 and the `fullName` sort, ascending.
- `PageExtensions` (`page_extensions.dfy`): the two mappers from a page of records to
  the paged response.
- `Exceptions` (`exceptions.dfy`): the error taxonomy and every exception's message rule.
- `Service` (`user_service.dfy`): the `UserService` class.
  - Its state is the table (`rows`) and a ghost log (`calls`) of every lookup, search,
    save and dispatch it performs, in order.
  - Its seven operations are methods that return `Ok(value)` or `Err(exception)`.
  - The payload guard, the CPF-uniqueness guard, the choice of search query and the search
    terms are pure functions.
- `Text`, `Paging`, `ApiModel` and `Optional` hold what the above share:
  - Kotlin's `isBlank`/`ifBlank`, SQL `LOWER` and substring search;
  - the Spring Data page values;
  - the request and response shapes;
  - nullable values.

Each service method's contract gives the full result and the full new state for every
path: the error, the table and the calls made. The store invariant is that every row can
be shown and that no two rows share an id or a CPF. Every method preserves it. No method ever changes a
soft-deleted row.

Two behaviours of the code worth noting:

- CPF uniqueness is checked with `findFirstByCpf`, which has no `deletedAt` filter. A
  soft-deleted record's CPF therefore still blocks a new registration
  (`Service.DeletedCpfStillBlocks`).
- The service never validates a CPF's format and never raises `InvalidCpfException`. That
  exception is modelled only as a message rule.

## Model

| member | source | states |
|---|---|---|
| Text.IfBlank | src/main/kotlin/dev/erickvieira/ppcc/service/user/domain/extension/User.extensions.kt:33-36 | a blank text (empty or JVM whitespace only) is replaced by the fallback; any other text is kept |
| Text.Lower | src/main/kotlin/dev/erickvieira/ppcc/service/user/domain/repository/UserRepository.kt:40 | `LOWER` keeps the length and lower-cases every character in place |
| Text.Contains | src/main/kotlin/dev/erickvieira/ppcc/service/user/domain/repository/UserRepository.kt:40 | `LIKE '%t%'` without wildcards in `t`; specified by `ContainsIffOccurs` (iff `t` occurs at some offset) |
| Text.ContainsIffOccurs | src/main/kotlin/dev/erickvieira/ppcc/service/user/domain/repository/UserRepository.kt:40 | `LIKE '%t%'` holds exactly when `t` occurs at some offset of the text |
| Text.ContainsEmpty | src/main/kotlin/dev/erickvieira/ppcc/service/user/domain/repository/UserRepository.kt:40 | an empty name filter matches every name |
| UserEntity.DefaultUser | src/main/kotlin/dev/erickvieira/ppcc/service/user/domain/entity/User.kt:18-43 | by default `cpf` and `fullName` are empty and every other field is null |
| UserEntity.Equals | src/main/kotlin/dev/erickvieira/ppcc/service/user/domain/entity/User.kt:45-51 | `User.equals`: the identical object, else a `User` with the same non-null id; specified by `EqualsReflexive`, `NotEqualToNullOrOtherClass`, `EqualsById`, `EqualsSymmetric` and `EqualsTransitive` |
| UserEntity.EqualsReflexive | src/main/kotlin/dev/erickvieira/ppcc/service/user/domain/entity/User.kt:46 | the identical object is equal to itself, id or not |
| UserEntity.NotEqualToNullOrOtherClass | src/main/kotlin/dev/erickvieira/ppcc/service/user/domain/entity/User.kt:47 | a user never equals null or an object of another class |
| UserEntity.EqualsById | src/main/kotlin/dev/erickvieira/ppcc/service/user/domain/entity/User.kt:50 | distinct objects are equal iff this id is non-null and equals the other's; two id-less users are never equal |
| UserEntity.EqualsSymmetric | src/main/kotlin/dev/erickvieira/ppcc/service/user/domain/entity/User.kt:45-51 | equality is symmetric |
| UserEntity.EqualsTransitive | src/main/kotlin/dev/erickvieira/ppcc/service/user/domain/entity/User.kt:45-51 | equality is transitive |
| UserEntity.HashCode | src/main/kotlin/dev/erickvieira/ppcc/service/user/domain/entity/User.kt:53 | `User.hashCode`: the class object's hash, whatever the instance; specified by `HashCodeConsistent` |
| UserEntity.HashCodeConsistent | src/main/kotlin/dev/erickvieira/ppcc/service/user/domain/entity/User.kt:53 | every user has the same hash code, so equal users hash equally |
| PageRequestExtensions.PageRequest | src/main/kotlin/dev/erickvieira/ppcc/service/user/extension/PageRequest.extensions.kt:8-16 | `toPageRequest`: page, size and sort property default to 0, 20 and `fullName`; specified by `PageRequestEntries` and `DescendingIffDesc` |
| PageRequestExtensions.PageRequestEntries | src/main/kotlin/dev/erickvieira/ppcc/service/user/extension/PageRequest.extensions.kt:8-16 | a missing page, size or sort reads 0, 20 or `fullName`; a given one passes through unchanged |
| PageRequestExtensions.DescendingIffDesc | src/main/kotlin/dev/erickvieira/ppcc/service/user/extension/PageRequest.extensions.kt:15 | the order is descending iff the direction is `desc`; absent or `asc` ascends |
| PageRequestExtensions.EmptyPaginationDefaults | src/test/kotlin/dev/erickvieira/ppcc/service/user/unit/extension/PageRequestExtensionsTests.kt:30-39 | an empty map gives page 0, size 20 and the sort text "fullName: ASC" |
| PageRequestExtensions.GivenPaginationPassesThrough | src/test/kotlin/dev/erickvieira/ppcc/service/user/unit/extension/PageRequestExtensionsTests.kt:11-28 | page 1, size 20, `fullName`, `asc` come back as page 1, size 20, "fullName: ASC" |
| Paging.SortText | src/main/kotlin/dev/erickvieira/ppcc/service/user/domain/extension/PageUser.extensions.kt:12 | `Sort.toString()` of a one-property sort starts with the property and ends in ": ASC" when ascending and ": DESC" when descending |
| Paging.PageCount | src/main/kotlin/dev/erickvieira/ppcc/service/user/domain/repository/UserRepository.kt:20-26 | the page count is the least number of pages of the given size that hold the total |
| Paging.Window | src/main/kotlin/dev/erickvieira/ppcc/service/user/domain/repository/UserRepository.kt:18-26 | a page is the run of results starting at page number times size: of exactly the page size while that many remain, the remainder on the last page, empty past the end |
| UserExtensions.ToUserDTO | src/main/kotlin/dev/erickvieira/ppcc/service/user/domain/extension/User.extensions.kt:10-19 | needs id, birth date and creation time non-null; copies all eight shown fields unchanged |
| UserExtensions.FromUserCreationDTO | src/main/kotlin/dev/erickvieira/ppcc/service/user/domain/extension/User.extensions.kt:21-28 | id null; CPF, name, birth date, phone and e-mail copied; `createdAt` = now; `updatedAt` and `deletedAt` null |
| UserExtensions.WithPartialValues | src/main/kotlin/dev/erickvieira/ppcc/service/user/domain/extension/User.extensions.kt:30-39 | name, phone and e-mail change only to a non-null, non-blank value; birth date to any non-null one; id, CPF and `createdAt` kept; `updatedAt` = now; `deletedAt` null |
| UserExtensions.WithFullValues | src/main/kotlin/dev/erickvieira/ppcc/service/user/domain/extension/User.extensions.kt:41-50 | name, birth date, phone and e-mail are the payload's verbatim, nulls included; id, CPF and `createdAt` kept; `updatedAt` = now; `deletedAt` null |
| UserExtensions.AsDeleted | src/main/kotlin/dev/erickvieira/ppcc/service/user/domain/extension/User.extensions.kt:52-62 | every field kept, `updatedAt` included; `deletedAt` = now |
| UserExtensions.PartialMergeIdempotent | src/main/kotlin/dev/erickvieira/ppcc/service/user/domain/extension/User.extensions.kt:30-39 | applying a sparse payload twice gives the data fields of applying it once; only `updatedAt` differs |
| UserExtensions.BlankIsAbsent | src/main/kotlin/dev/erickvieira/ppcc/service/user/domain/extension/User.extensions.kt:33-36 | a blank name, phone or e-mail in a sparse payload acts exactly as a null one |
| UserExtensions.CompleteSparseIsDense | src/main/kotlin/dev/erickvieira/ppcc/service/user/domain/extension/User.extensions.kt:30-50 | a sparse payload with every field given and non-blank merges exactly as the dense payload with those values |
| UserExtensions.DenseIgnoresOldData | src/main/kotlin/dev/erickvieira/ppcc/service/user/domain/extension/User.extensions.kt:41-50 | the dense merge depends only on id, CPF and `createdAt` of the old record |
| UserExtensions.SparseKeepsEmailOnBlank | src/main/kotlin/dev/erickvieira/ppcc/service/user/domain/extension/User.extensions.kt:33-36 | a new name with an empty e-mail changes the name and keeps the e-mail |
| UserExtensions.CopiesStayPresentable | src/main/kotlin/dev/erickvieira/ppcc/service/user/domain/extension/User.extensions.kt:30-62 | both merges and soft deletion keep id, birth date and creation time non-null |
| UserExtensions.CreatedRecordView | src/main/kotlin/dev/erickvieira/ppcc/service/user/domain/extension/User.extensions.kt:10-28 | a created record with its generated id shows the payload's fields, that id, the creation time and no update time |
| UserExtensions.DeletionNotShown | src/main/kotlin/dev/erickvieira/ppcc/service/user/domain/extension/User.extensions.kt:52-62 | a soft-deleted copy shows exactly as the record before deletion |
| PageExtensions.ToUserDTOs | src/main/kotlin/dev/erickvieira/ppcc/service/user/domain/extension/PageUser.extensions.kt:9 | the mapped content has the same length and, position by position, the mapped record |
| PageExtensions.ToUserDTOsAppend | src/main/kotlin/dev/erickvieira/ppcc/service/user/domain/extension/PageUser.extensions.kt:9 | mapping distributes over concatenation, so order is kept |
| PageExtensions.FromPage | src/main/kotlin/dev/erickvieira/ppcc/service/user/domain/extension/PageUser.extensions.kt:7-13 | a non-null receiver is returned unchanged; otherwise the page request, the mapped content, the total, the page count and the sort text, with no page number or size |
| PageExtensions.ToPageUserDTO | src/main/kotlin/dev/erickvieira/ppcc/service/user/domain/extension/Page.extensions.kt:8-14 | the page request, the mapped content, the total, the page count, the page number and the page size; no sort text |
| PageExtensions.MappersAgree | src/main/kotlin/dev/erickvieira/ppcc/service/user/domain/extension/Page.extensions.kt:8-14 | the two mappers differ only in page number, page size and sort text |
| UserRepository.Hits | src/main/kotlin/dev/erickvieira/ppcc/service/user/domain/repository/UserRepository.kt:12-16 | the derived lookups: `findFirstByCpf` compares the CPF only; the other two also need `deletedAt` null; specified through `FindFirst` and `ActiveLookupsReturnActive` |
| UserRepository.FindFirst | src/main/kotlin/dev/erickvieira/ppcc/service/user/domain/repository/UserRepository.kt:12-16 | a found record is a stored row the lookup matches; nothing is found iff no row matches |
| UserRepository.FindFirstAt | src/main/kotlin/dev/erickvieira/ppcc/service/user/domain/repository/UserRepository.kt:12-16 | the lookup returns the first matching row in storage order |
| UserRepository.FindFirstByCpfSeesDeleted | src/main/kotlin/dev/erickvieira/ppcc/service/user/domain/repository/UserRepository.kt:12 | the CPF lookup finds a record even when it is soft-deleted |
| UserRepository.ActiveLookupsReturnActive | src/main/kotlin/dev/erickvieira/ppcc/service/user/domain/repository/UserRepository.kt:14-16 | the id and CPF lookups over active records only return active records with that id or CPF |
| UserRepository.Where | src/main/kotlin/dev/erickvieira/ppcc/service/user/domain/repository/UserRepository.kt:19-62 | each paged query's `WHERE` clause (shared with its count query): `deletedAt IS NULL`, plus CPF equality and/or the lower-cased name containment; specified through `Select`, `SearchQueryFilters` and `CountIsSelectedSize` |
| UserRepository.Select | src/main/kotlin/dev/erickvieira/ppcc/service/user/domain/repository/UserRepository.kt:18-65 | a query selects exactly the stored rows its `WHERE` clause accepts |
| UserRepository.SelectAppend | src/main/kotlin/dev/erickvieira/ppcc/service/user/domain/repository/UserRepository.kt:18-65 | selection keeps storage order |
| UserRepository.CountQuery | src/main/kotlin/dev/erickvieira/ppcc/service/user/domain/repository/UserRepository.kt:20-24 | `COUNT(u.id)` never exceeds the number of rows; its partner `CountIsSelectedSize` equates it with the selection |
| UserRepository.CountIsSelectedSize | src/main/kotlin/dev/erickvieira/ppcc/service/user/domain/repository/UserRepository.kt:20-24 | with every id set, each count query counts exactly the rows its value query selects |
| UserRepository.QueryPage | src/main/kotlin/dev/erickvieira/ppcc/service/user/domain/repository/UserRepository.kt:18-65 | a page keeps its request, holds the requested window of the rows the query selects (so only rows the `WHERE` clause accepts, at most the page size), its total is the count query, and its page count is the fewest pages of that size holding the total |
| UserRepository.PageEmptyIff | src/main/kotlin/dev/erickvieira/ppcc/service/user/domain/repository/UserRepository.kt:18-65 | any page is empty iff its offset (page number times size) is at or past the number of selected rows |
| UserRepository.ShortPageTotal | src/main/kotlin/dev/erickvieira/ppcc/service/user/domain/repository/UserRepository.kt:18-65 | with every id set, a page shorter than its size that is the first page or not empty ends the result: its offset plus its length is the count query's total |
| UserRepository.FirstPageEmptyIff | src/main/kotlin/dev/erickvieira/ppcc/service/user/domain/repository/UserRepository.kt:18-26 | the first page is empty iff no stored row satisfies the query |
| Exceptions.NonNullTerms | src/main/kotlin/dev/erickvieira/ppcc/service/user/domain/exception/NotFoundException.kt:8 | no more terms come out than go in, and every one kept is non-null |
| Exceptions.NonNullTermsMembers | src/main/kotlin/dev/erickvieira/ppcc/service/user/domain/exception/NotFoundException.kt:8 | a term is kept iff it is one of the given terms and its value is non-null |
| Exceptions.NonNullTermsAppend | src/main/kotlin/dev/erickvieira/ppcc/service/user/domain/exception/NotFoundException.kt:8 | filtering keeps the terms in argument order |
| Exceptions.NonNullTermsAllPresent | src/main/kotlin/dev/erickvieira/ppcc/service/user/domain/exception/NotFoundException.kt:8 | when no term is null nothing is dropped |
| Exceptions.NonNullTermsAfterOptional | src/main/kotlin/dev/erickvieira/ppcc/service/user/domain/exception/NotFoundException.kt:8 | two nullable terms ahead of non-null ones: each is kept iff non-null, the rest follow unchanged |
| Exceptions.JoinTerms | src/main/kotlin/dev/erickvieira/ppcc/service/user/domain/exception/NotFoundException.kt:10 | the joined text is empty iff there are no terms; its partner `JoinTermsSnoc` gives how each further term is appended |
| Exceptions.JoinTermsSnoc | src/main/kotlin/dev/erickvieira/ppcc/service/user/domain/exception/NotFoundException.kt:10 | another term adds `", "` and its `"k: v"` text at the end |
| Exceptions.NotFoundMessage | src/main/kotlin/dev/erickvieira/ppcc/service/user/domain/exception/NotFoundException.kt:6-12 | the message starts with the base message |
| Exceptions.NotFoundMessageBareIff | src/main/kotlin/dev/erickvieira/ppcc/service/user/domain/exception/NotFoundException.kt:9-11 | the message is exactly the base message iff every term is null |
| Exceptions.NotFoundMessageOneTerm | src/main/kotlin/dev/erickvieira/ppcc/service/user/domain/exception/NotFoundException.kt:6-12 | one non-null term gives base + `" - "` + `"k: v"` |
| Exceptions.NotFoundException | src/main/kotlin/dev/erickvieira/ppcc/service/user/domain/exception/NotFoundException.kt:5-14 | a not-found error carrying the given type unchanged |
| Exceptions.UserNotFoundException | src/main/kotlin/dev/erickvieira/ppcc/service/user/domain/exception/UserNotFoundException.kt:5-9 | a not-found error of type `USER_NOT_FOUND` whose message is built from the fixed base message and the terms in order |
| Exceptions.UserNotFoundMessages | src/main/kotlin/dev/erickvieira/ppcc/service/user/domain/exception/UserNotFoundException.kt:5-9 | no terms give exactly "No users found using the search terms provided"; one term is appended after `" - "` |
| Exceptions.NullPayloadException | src/main/kotlin/dev/erickvieira/ppcc/service/user/domain/exception/NullPayloadException.kt:5-8 | a bad request of type `nullPayload` |
| Exceptions.NullPayloadMessages | src/main/kotlin/dev/erickvieira/ppcc/service/user/domain/exception/NullPayloadException.kt:6 | a non-blank name sits between "The" and "payload" with no spaces; a blank one gives "The payload can't be null" |
| Exceptions.NullPayloadDefaultMessage | src/main/kotlin/dev/erickvieira/ppcc/service/user/domain/exception/NullPayloadException.kt:5-6 | a null name gives "The null payload can't be null" |
| Exceptions.DuplicatedCpfException | src/main/kotlin/dev/erickvieira/ppcc/service/user/domain/exception/DuplicatedCpfException.kt:5-8 | a conflict of type `DUPLICATED_CPF` |
| Exceptions.DuplicatedCpfMessageRoundTrip | src/main/kotlin/dev/erickvieira/ppcc/service/user/domain/exception/DuplicatedCpfException.kt:6 | the CPF can be read back verbatim from "The CPF … is already registered" |
| Exceptions.DuplicatedEmptyCpfMessage | src/main/kotlin/dev/erickvieira/ppcc/service/user/domain/exception/DuplicatedCpfException.kt:6 | an empty CPF leaves the prefix and suffix side by side, with a double space |
| Exceptions.InvalidCpfException | src/main/kotlin/dev/erickvieira/ppcc/service/user/domain/exception/InvalidCpfException.kt:5-8 | a bad request of type `INVALID_CPF` |
| Exceptions.InvalidPayloadException | src/main/kotlin/dev/erickvieira/ppcc/service/user/domain/exception/InvalidPayloadException.kt:5-6 | a bad request of type `INVALID_PAYLOAD` |
| Exceptions.BadRequestTemplates | src/main/kotlin/dev/erickvieira/ppcc/service/user/domain/exception/InvalidCpfException.kt:5-6 | both templates are a fixed prefix and the rendered argument, which is "null" for null |
| Exceptions.UnexpectedException | src/main/kotlin/dev/erickvieira/ppcc/service/user/domain/exception/UnexpectedException.kt:5-8 | a direct base error of type `UNEXPECTED_ERROR` |
| Exceptions.UnexpectedMessages | src/main/kotlin/dev/erickvieira/ppcc/service/user/domain/exception/UnexpectedException.kt:6 | a null message becomes "Unexpected Error"; any other is kept verbatim |
| Service.EnsurePayloadNotNull | src/main/kotlin/dev/erickvieira/ppcc/service/user/domain/service/UserService.kt:177-182 | a non-null payload passes unchanged; null fails with the null-payload error naming the `User` class |
| Service.EnsureCpfUniqueness | src/main/kotlin/dev/erickvieira/ppcc/service/user/domain/service/UserService.kt:188-191 | the user passes unchanged iff no stored row, deleted or not, has its CPF; otherwise the duplicated-CPF error for that CPF |
| Service.DeletedCpfStillBlocks | src/main/kotlin/dev/erickvieira/ppcc/service/user/domain/service/UserService.kt:188-191 | a soft-deleted record's CPF still makes registration fail |
| Service.CpfIdentifiesRow | src/main/kotlin/dev/erickvieira/ppcc/service/user/domain/service/UserService.kt:188-191 | under the store invariant a CPF names at most one row: `findFirstByCpf` finds it, and `findFirstByCpfAndDeletedAtIsNull` finds it iff it is active, whatever the storage order |
| Service.SearchQuery | src/main/kotlin/dev/erickvieira/ppcc/service/user/domain/service/UserService.kt:52-62 | the `if` chain that picks the repository query; specified by `SearchQueryChoice` and `SearchQueryFilters` |
| Service.SearchQueryChoice | src/main/kotlin/dev/erickvieira/ppcc/service/user/domain/service/UserService.kt:52-62 | no filter gives all active records; both give the combined query; CPF only gives the CPF query; name only gives the name query |
| Service.SearchQueryFilters | src/main/kotlin/dev/erickvieira/ppcc/service/user/domain/service/UserService.kt:52-62 | the chosen query accepts a row iff it is active and meets every filter given |
| Service.SearchTerms | src/main/kotlin/dev/erickvieira/ppcc/service/user/domain/service/UserService.kt:41-48 | six terms, the first two being "cpf" and "fullName" with the filters as given (null allowed), the other four never null |
| Service.SearchTermsReported | src/main/kotlin/dev/erickvieira/ppcc/service/user/domain/service/UserService.kt:41-48 | the not-found terms are the given filters, then page, size, sort and direction, in that order |
| Service.Merged | src/main/kotlin/dev/erickvieira/ppcc/service/user/domain/service/UserService.kt:133-134 | saving a record with an id replaces the row with that id and leaves every other row |
| Service.FindFirstSameHits | src/main/kotlin/dev/erickvieira/ppcc/service/user/domain/repository/UserRepository.kt:14 | two tables that agree wherever either matches give the same lookup result |
| Service.MergedKeepsInvariant | src/main/kotlin/dev/erickvieira/ppcc/service/user/domain/service/UserService.kt:132-135 | replacing a row by a presentable record with the same id and CPF keeps every row presentable and the ids and CPFs unique |
| Service.MergedLookup | src/main/kotlin/dev/erickvieira/ppcc/service/user/domain/service/UserService.kt:132-136 | after a save, looking up the id finds the saved record if active, nothing if deleted |
| Service.MergedOtherLookups | src/main/kotlin/dev/erickvieira/ppcc/service/user/domain/service/UserService.kt:132-136 | a save leaves every other id's lookup unchanged |
| Service.MergedKeepsDeletedRows | src/main/kotlin/dev/erickvieira/ppcc/service/user/domain/service/UserService.kt:168-169 | saving over an active record never changes a soft-deleted one |
| Service.SaveOverActive | src/main/kotlin/dev/erickvieira/ppcc/service/user/domain/service/UserService.kt:132-136 | saving over the active row with the same id and CPF keeps the invariant and every deleted row, and the id then finds the saved record, or nothing once it is deleted |
| Service.PersistKeepsInvariant | src/main/kotlin/dev/erickvieira/ppcc/service/user/domain/service/UserService.kt:81 | a new record with a fresh id and a CPF no row holds keeps the invariant and is then found by its id |
| Service.UserService.constructor | src/main/kotlin/dev/erickvieira/ppcc/service/user/domain/service/UserService.kt:21-24 | the service starts over a valid table with no calls made |
| Service.UserService.SaveExisting | src/main/kotlin/dev/erickvieira/ppcc/service/user/domain/service/UserService.kt:133-134 | a save over an active row replaces it, logs one save, keeps the invariant and deleted rows, and makes the saved record the one found by its id while active |
| Service.UserService.SearchUsers | src/main/kotlin/dev/erickvieira/ppcc/service/user/domain/service/UserService.kt:32-69 | one search with the chosen query and page request; an empty page fails with the six terms, otherwise the mapped page; a page below 0 or size below 1 fails as unexpected with no call; never writes |
| Service.UserService.CreateUser | src/main/kotlin/dev/erickvieira/ppcc/service/user/domain/service/UserService.kt:76-93 | null payload: error, no call; CPF taken by any row: one CPF lookup and the conflict, no save or dispatch; otherwise lookup, one save, one dispatch of the new id, and the stored record shown |
| Service.UserService.RetrieveUser | src/main/kotlin/dev/erickvieira/ppcc/service/user/domain/service/UserService.kt:99-105 | the active record with the id, or not-found on the single term "id"; one lookup, no write |
| Service.UserService.RetrieveUserByCpf | src/main/kotlin/dev/erickvieira/ppcc/service/user/domain/service/UserService.kt:111-117 | the active record with the CPF, or not-found on the single term "cpf"; one lookup, no write; any active row with that CPF is the one answered, since the invariant leaves at most one |
| Service.UserService.PartiallyUpdateUser | src/main/kotlin/dev/erickvieira/ppcc/service/user/domain/service/UserService.kt:124-138 | null payload fails before any lookup; no active record fails with no save; otherwise the sparse merge is saved once, returned, and found by the id afterwards |
| Service.UserService.UpdateUser | src/main/kotlin/dev/erickvieira/ppcc/service/user/domain/service/UserService.kt:145-159 | null payload fails before any lookup; no active record fails with no save; otherwise the dense merge is saved once, returned, and found by the id afterwards |
| Service.UserService.DeleteUser | src/main/kotlin/dev/erickvieira/ppcc/service/user/domain/service/UserService.kt:165-172 | no active record fails with no save; otherwise the soft-deleted copy is saved, the record before deletion is returned, and no active record with the id remains |
| Service.DeleteTwice | src/main/kotlin/dev/erickvieira/ppcc/service/user/domain/service/UserService.kt:165-172 | after a deletion, deleting or retrieving the same id fails with not-found on "id" |
| Service.CreateThenRetrieve | src/main/kotlin/dev/erickvieira/ppcc/service/user/domain/service/UserService.kt:76-105 | a successful creation is retrieved by its new id exactly as it was returned |

## Left out

- Logging (`logger.custom.info`) and the `executeOrLog` wrapper. The wrapper's source is
  not part of this model. Its one effect the model keeps: a failure from
  `PageRequest.of` becomes `UnexpectedException`.
- Service.UserService.SearchUsers: a page below 0 or a size below 1 answers
  `UnexpectedException` with the fallback message. The message the wrapper would carry
  over from Spring's argument check is not modelled.
- The `load` helper around the page mapping in `searchUsers` is not part of this model.
  Its receiver is taken to be null, so `fromPage` always builds a new response from the
  page (`FromPage(None, …)` in `Service.UserService.SearchUsers`).
- The location URI of a created user and the HTTP status codes. The operations return
  plain results.
- The RabbitMQ dispatcher, its configuration and the service properties. A dispatch is
  only a `Dispatch(id)` entry in the ghost call log.
- The clock. `OffsetDateTime.now()` is the `now` parameter. Dates and instants are plain
  integers, compared only for equality.
- The UUID generator. `generatedId` is a parameter of `CreateUser`. Its precondition is
  the generator's promise that the id is new.
- The ordering of a page. The `ORDER BY` a sort adds is not modelled: pages are windows
  over the selected rows in storage order.
- Spring's count-query shortcut. On a short first page, or a short non-empty later one,
  Spring skips the count query and takes the offset plus the page length as the total.
  The model always uses the count query. Under the store invariant every row has an id,
  and then both give the same total (`UserRepository.ShortPageTotal`).
- SQL `LOWER` folds only the ASCII letters here. The database collation for other
  characters, and `%` or `_` typed into a name filter, are not modelled.
- The `@CPF` validator and Hibernate's proxy class resolution. The validator is library
  code and the service never calls it. Proxy resolution is treated as "same class".
- `User.toString` through Gson.
- Concurrency: the check-then-save race in `createUser` and lost updates.
- The exception base classes carry only a message and a type. They are folded into the
  `Category` tag of `Exception`.
- The older `UserCreation.extensions.kt` is not modelled. It is an obsolete duplicate of
  `fromUserCreationDTO`, and it refers to a field `User` no longer has.
- `InvalidPayloadException` takes any object. The model gives it the object's string form.
- Nullability of the generated API types. The model follows how the unit tests build them:
  - the creation and dense update payloads always carry a name and a birth date;
  - every field of the sparse payload may be null.
- Search terms render `sort` and `direction` by their enum constant names. These are the
  same as their wire values (`fullName`, `asc`).
