# Category catalogue core, modelled in Dafny

This project models the category part of a content-catalogue administration
service: the self-validating Category aggregate, the two validation handlers
(an accumulating Notification and a fail-fast handler that raises a
DomainException), the update, get-by-id and list use cases, and the category
store they talk to, with its create / update / deleteById / findById / findAll
contract.

Modules, one per component:

- `Wrappers` (wrappers.dfy): `Option` for nullable values and Optional results, `Either` for the update result.
- `Strings` (strings.dfy): `String.trim`, ASCII lower-casing, substring search and the lexicographic order the store sorts text by.
- `Validation` (validation.dfy): `Error`, the exceptions (`DomainException` with its errors, any other exception by its message), `Raises<T>` for a call that returns or raises, and the `ValidationHandler` class with its two strategies.
- `Categories` (category.dfy): the name rules, the lifecycle as functions on a snapshot of the fields (`CategoryRow`), and the `Category` class whose methods change the object in place and return it.
- `Search` (search.dfy): the store's search contract. Rows are filtered by term, sorted on a property in a direction, and one page is cut out; the total counts every match.
- `Gateway` (gateway.dfy): the store as a class holding a map from identifier to row, changed in place.
- `UseCases` (usecases.dfy): `UpdateCategoryCommand`, get-by-id, list and update.

Modelling choices:

- Time is an integer clock reading passed in as `now`. Every mutation requires `now` to be later than the current `updatedAt`, so the clock strictly increases. The identifier generator is likewise a parameter of `NewCategory`.
- The name's length is measured on the trimmed name. `"Fi "` has raw length 3 and is still rejected with the length message (CategoryTest.java:73-86), so only the trimmed length fits; `"Fil"` is accepted (CategoryTest.java:220-247).
- "Blank" means nothing is left after `String.trim`, which strips every character up to and including the space.
- Deactivating, or updating to inactive, sets `deletedAt` to the current clock reading. The tests only require that it be present.
- A failure of the store is modelled by the store's `faults` map. An operation listed there raises `Unexpected(message)` and changes nothing. This stands for the exceptions the tests make the store throw.
- The store remembers the order in which rows were first stored. A search starts from that order, and the sort keeps it among rows with equal keys. Text compares ignoring ASCII letter case, and null sorts before every value.
- A query fails on a direction other than asc/desc, a negative page, a page size below one, or an unknown sort property, checked in that order.

## Model

| member | source | states |
|---|---|---|
| Strings.Trim | domain/src/test/java/com/admin/catalogo/domain/category/CategoryTest.java:70-88 | the trimmed name is empty exactly when the name is blank, starts and ends with a non-blank character, and is the name minus its maximal blank prefix and suffix |
| Validation.DomainWith | application/src/main/java/com/admin/catalogo/application/category/retrieve/get/DefaultGetCategoryByIdUseCase.java:26-29 | DomainException.with(error) carries exactly that one error and takes its message from it |
| Validation.ValidationHandler.Notification | application/src/test/java/com/admin/catalogo/application/category/update/UpdateCategoryUseCaseTest.java:97-100 | a new Notification accumulates and holds no errors |
| Validation.ValidationHandler.Throws | domain/src/test/java/com/admin/catalogo/domain/category/CategoryTest.java:42-43 | a new ThrowsValidationHandler fails fast and holds no errors |
| Validation.ValidationHandler.Append | domain/src/test/java/com/admin/catalogo/domain/category/CategoryTest.java:42-46 | an accumulating handler appends the error; a fail-fast one raises a DomainException with exactly that error and records nothing |
| Validation.ValidationHandler.HasError | application/src/test/java/com/admin/catalogo/application/category/update/UpdateCategoryUseCaseTest.java:97-100 | hasError holds exactly when some error has been recorded |
| Validation.ValidationHandler.FirstError | application/src/test/java/com/admin/catalogo/application/category/update/UpdateCategoryUseCaseTest.java:97-100 | firstError is present exactly when an error was recorded and is the earliest one |
| Categories.NameErrors | domain/src/test/java/com/admin/catalogo/domain/category/CategoryTest.java:30-113 | at most one error, and none exactly when the name is present with trimmed length in 3..255 |
| Categories.NullNameError | domain/src/test/java/com/admin/catalogo/domain/category/CategoryTest.java:30-48 | a null name gives exactly one error, "'name' should not be null" |
| Categories.BlankNameError | domain/src/test/java/com/admin/catalogo/domain/category/CategoryTest.java:50-68 | a whitespace-only name gives exactly one error, "'name' should not be empty" |
| Categories.NameLengthError | domain/src/test/java/com/admin/catalogo/domain/category/CategoryTest.java:70-113 | a non-blank name with trimmed length below 3 or above 255 gives exactly one error, the length message |
| Categories.PaddedShortNameRejected | domain/src/test/java/com/admin/catalogo/domain/category/CategoryTest.java:70-88 | "Fi " is rejected with the length error, because its trimmed length is 2 |
| Categories.ThreeLetterNameAccepted | domain/src/test/java/com/admin/catalogo/domain/category/CategoryTest.java:220-247 | "Fil" passes validation |
| Categories.NewRow | domain/src/test/java/com/admin/catalogo/domain/category/CategoryTest.java:137-157 | a new category keeps the given fields, is created and updated at the same instant, satisfies the invariant, and has a deletion time exactly when created inactive |
| Categories.Activated | domain/src/test/java/com/admin/catalogo/domain/category/CategoryTest.java:189-218 | activate makes the category active with no deletion time and a strictly later update time, keeping id, name, description and createdAt, and preserves the invariant |
| Categories.Deactivated | domain/src/test/java/com/admin/catalogo/domain/category/CategoryTest.java:159-187 | deactivate makes the category inactive with a deletion time and a strictly later update time, keeping id, name, description and createdAt, and preserves the invariant |
| Categories.Updated | domain/src/test/java/com/admin/catalogo/domain/category/CategoryTest.java:220-305 | update sets name (even null), description and flag, recomputes deletedAt from the flag, keeps id and createdAt, moves updatedAt strictly forward, and preserves the invariant |
| Categories.Apply | domain/src/test/java/com/admin/catalogo/domain/category/CategoryTest.java:159-305 | each mutation keeps the invariant, id and createdAt, and sets updatedAt to the clock reading |
| Categories.ReplayKeepsInvariant | domain/src/test/java/com/admin/catalogo/domain/category/CategoryTest.java:159-305 | along any sequence of mutations driven by a strictly increasing clock, the invariant always holds, id and createdAt never change, and updatedAt ends strictly later |
| Categories.Category.NewCategory | domain/src/test/java/com/admin/catalogo/domain/category/CategoryTest.java:10-28 | newCategory yields an object whose fields are those of NewRow and which satisfies the invariant |
| Categories.Category.FromRow | infrastructure/src/test/java/com/admin/catalogo/infrastructure/category/CategoryMySQLGatewayTest.java:136-162 | the aggregate rebuilt from a stored row has exactly the stored fields |
| Categories.Category.Activate | domain/src/test/java/com/admin/catalogo/domain/category/CategoryTest.java:189-218 | activate changes the receiver to Activated of its old state and returns the receiver itself |
| Categories.Category.Deactivate | domain/src/test/java/com/admin/catalogo/domain/category/CategoryTest.java:159-187 | deactivate changes the receiver to Deactivated of its old state and returns the receiver itself |
| Categories.Category.Update | domain/src/test/java/com/admin/catalogo/domain/category/CategoryTest.java:249-305 | update changes the receiver to Updated of its old state and returns the receiver itself, so the original reference sees the change |
| Categories.Category.Validate | domain/src/test/java/com/admin/catalogo/domain/category/CategoryTest.java:115-135 | only the name is checked. An accumulating handler gains NameErrors(name); a fail-fast one raises with the first of them and records nothing |
| Search.MapItems | application/src/main/java/com/admin/catalogo/application/category/retrieve/list/DefaultListCategoriesUseCase.java:19-20 | Pagination.map keeps currentPage, perPage and total, keeps the item count, and maps item i to f(item i) |
| Search.ParseSortField | infrastructure/src/test/java/com/admin/catalogo/application/category/retrieve/list/ListCategoriesUseCaseIT.java:96-123 | a recognised sort string is exactly the name of the property it selects |
| Search.ParseFieldName | infrastructure/src/test/java/com/admin/catalogo/application/category/retrieve/list/ListCategoriesUseCaseIT.java:96-123 | every sortable property is recognised by its own name |
| Search.ParseDirection | infrastructure/src/test/java/com/admin/catalogo/application/category/retrieve/list/ListCategoriesUseCaseIT.java:96-123 | asc and desc are recognised in any ASCII letter case, and nothing else is |
| Search.SortRows | infrastructure/src/test/java/com/admin/catalogo/application/category/retrieve/list/ListCategoriesUseCaseIT.java:96-123 | sorting returns a permutation of its input |
| Search.SortRowsSorted | infrastructure/src/test/java/com/admin/catalogo/application/category/retrieve/list/ListCategoriesUseCaseIT.java:96-123 | the sorted rows are ordered on the property in the direction |
| Search.Filter | infrastructure/src/test/java/com/admin/catalogo/application/category/retrieve/list/ListCategoriesUseCaseIT.java:65-94 | a row is kept exactly when it is stored and matches the term on name or description ignoring case, as many times as it is stored, with the kept rows in their stored order; no term or a blank one keeps every row |
| Search.Matches | infrastructure/src/test/java/com/admin/catalogo/application/category/retrieve/list/ListCategoriesUseCaseIT.java:65-94 | without a term (absent or blank) every row matches; with one, a row with neither name nor description never matches, and a row whose name equals the term ignoring case always does |
| Search.TermMatchesNameIgnoringCase | infrastructure/src/test/java/com/admin/catalogo/application/category/retrieve/list/ListCategoriesUseCaseIT.java:65-94 | "ZON" matches the category named "Amazon" |
| Search.TermMatchesDescription | infrastructure/src/test/java/com/admin/catalogo/application/category/retrieve/list/ListCategoriesUseCaseIT.java:65-94 | "crianças" matches the category whose description contains it |
| Search.Window | infrastructure/src/test/java/com/admin/catalogo/application/category/retrieve/list/ListCategoriesUseCaseIT.java:125-157 | page p of size k holds the items from p*k on, k of them or fewer on the last page, and none past the end |
| Search.PagesCover | infrastructure/src/test/java/com/admin/catalogo/infrastructure/category/CategoryMySQLGatewayTest.java:221-269 | pages 0..n-1 read in turn are exactly the first n*k sorted items |
| Search.PagesCoverAll | infrastructure/src/test/java/com/admin/catalogo/infrastructure/category/CategoryMySQLGatewayTest.java:221-269 | once n*k reaches the length, pages 0..n-1 together are the whole list |
| Search.SearchRows | infrastructure/src/test/java/com/admin/catalogo/infrastructure/category/CategoryMySQLGatewayTest.java:174-329 | a well-formed query echoes page and size, totals every match, and returns matching stored rows, ordered, as many as the page holds. A malformed direction, page, size or sort property raises |
| Search.TotalIndependentOfPage | infrastructure/src/test/java/com/admin/catalogo/application/category/retrieve/list/ListCategoriesUseCaseIT.java:125-157 | the total is the same on every page of a search |
| Search.NoTermsCountsEveryRow | infrastructure/src/test/java/com/admin/catalogo/application/category/retrieve/list/ListCategoriesUseCaseIT.java:96-123 | with an empty or absent term the total is the number of stored rows |
| Search.FirstPageStartsWithLeast | infrastructure/src/test/java/com/admin/catalogo/application/category/retrieve/list/ListCategoriesUseCaseIT.java:96-123 | the first item of page 0 sorts at or before every match, so the sort and direction decide which category comes first |
| Search.PagesListEveryMatch | infrastructure/src/test/java/com/admin/catalogo/application/category/retrieve/list/ListCategoriesUseCaseIT.java:125-157 | each page is its window of the sorted matches, and reading every page lists each match exactly once |
| Gateway.CategoryGateway.Count | infrastructure/src/test/java/com/admin/catalogo/infrastructure/category/CategoryMySQLGatewayTest.java:33-37 | the row count equals the number of identifiers in storage order |
| Gateway.CategoryGateway.Rows | infrastructure/src/test/java/com/admin/catalogo/infrastructure/category/CategoryMySQLGatewayTest.java:184-192 | the stored rows, one per stored identifier, in storage order, as many as Count |
| Gateway.CategoryGateway.FailOn | infrastructure/src/test/java/com/admin/catalogo/application/category/retrieve/get/GetCategoryByIdUseCaseIT.java:65-76 | after it, the named operation raises with the given message; stored rows are untouched |
| Gateway.CategoryGateway.Save | infrastructure/src/test/java/com/admin/catalogo/application/category/retrieve/get/GetCategoryByIdUseCaseIT.java:78-84 | the repository save that seeds the tests: the row replaces one with the same identifier or is added last, and the invariant is kept |
| Gateway.CategoryGateway.Create | infrastructure/src/test/java/com/admin/catalogo/infrastructure/category/CategoryMySQLGatewayTest.java:24-58 | create stores the category and returns it unchanged; a new identifier adds one row at the end of the storage order, an existing one keeps the order; findById then returns it |
| Gateway.CategoryGateway.Update | infrastructure/src/test/java/com/admin/catalogo/infrastructure/category/CategoryMySQLGatewayTest.java:60-106 | update replaces the row with the category's identifier and returns it; an existing identifier keeps the storage order and the row count, a new one is added last |
| Gateway.CategoryGateway.DeleteById | infrastructure/src/test/java/com/admin/catalogo/infrastructure/category/CategoryMySQLGatewayTest.java:108-134 | deleteById removes a stored row and its identifier from the storage order, dropping the count by one, and silently does nothing for an absent identifier |
| Gateway.CategoryGateway.FindById | infrastructure/src/test/java/com/admin/catalogo/infrastructure/category/CategoryMySQLGatewayTest.java:136-172 | findById returns the stored row exactly when the identifier is stored, and is empty otherwise |
| Gateway.CategoryGateway.FindAll | infrastructure/src/test/java/com/admin/catalogo/infrastructure/category/CategoryMySQLGatewayTest.java:174-329 | findAll is the search contract applied to the stored rows in storage order |
| Gateway.EmptyTableListsNothing | infrastructure/src/test/java/com/admin/catalogo/infrastructure/category/CategoryMySQLGatewayTest.java:204-219 | an empty table gives total 0 and no items, echoing page and size |
| Gateway.NoTermsCountsTable | infrastructure/src/test/java/com/admin/catalogo/infrastructure/category/CategoryMySQLGatewayTest.java:174-202 | without a term the total is the table's row count |
| UseCases.With | application/src/main/java/com/admin/catalogo/application/category/update/UpdateCategoryCommand.java:10-17 | with stores the id, name, description and flag as given, null name included |
| UseCases.OutputFrom | application/src/main/java/com/admin/catalogo/application/category/retrieve/get/DefaultGetCategoryByIdUseCase.java:22 | CategoryOutput.from copies every field of the category |
| UseCases.ListOutputFrom | application/src/main/java/com/admin/catalogo/application/category/retrieve/list/DefaultListCategoriesUseCase.java:20 | CategoryListOutput.from copies id, name, description, the active flag, createdAt and deletedAt |
| UseCases.NotFoundMessage | application/src/main/java/com/admin/catalogo/application/category/retrieve/get/DefaultGetCategoryByIdUseCase.java:28 | the message is "Category with ", the identifier, then " was not found" |
| UseCases.NotFound | application/src/main/java/com/admin/catalogo/application/category/retrieve/get/DefaultGetCategoryByIdUseCase.java:26-29 | not-found is a DomainException carrying exactly one error, whose message is also the exception's message |
| UseCases.GetCategoryById | application/src/main/java/com/admin/catalogo/application/category/retrieve/get/DefaultGetCategoryByIdUseCase.java:18-29 | a stored category comes back with every field as stored; an absent one raises a DomainException with the single error "Category with <id> was not found"; a store exception propagates unchanged |
| UseCases.ListCategories | application/src/main/java/com/admin/catalogo/application/category/retrieve/list/DefaultListCategoriesUseCase.java:17-21 | the store's failure propagates; otherwise page, size and total are kept, the query's page and size are echoed, and item i is the list output of the store's item i |
| UseCases.UpdateCategory | application/src/test/java/com/admin/catalogo/application/category/update/UpdateCategoryUseCaseTest.java:36-224 | see below |
| UseCases.StoreThenGet | infrastructure/src/test/java/com/admin/catalogo/application/category/retrieve/get/GetCategoryByIdUseCaseIT.java:31-53 | a category stored through the gateway is read back with every field as stored, and an active one has no deletion time |

UseCases.UpdateCategory:

- A failure of the lookup propagates.
- An absent identifier raises the not-found DomainException, and nothing is written.
- A name that fails validation returns Left with exactly the name's errors, and nothing is written.
- A failing write returns Left with one error carrying the failure's message.
- Otherwise the result is Right with the identifier. The stored row becomes Updated of the old row: the command's fields, the same id and createdAt, a later updatedAt, and deletedAt present exactly when inactive.

## Left out

- UseCases.UpdateCategory: does not count store calls. The tests' "findById called exactly once" and "update never called" are shown only through the result and the unchanged table.
- The create and delete use cases are not part of this model. Deleting is covered at the store level by deleteById.
- The Java sources of the entity, its validator, Notification, ThrowsValidationHandler, CategoryMySQLGateway and the output records are not part of this model. `Categories.Category`, `Validation.ValidationHandler`, `Gateway.CategoryGateway` and the output datatypes rebuild their behaviour from the tests that exercise them. The tests leave these choices open:
  - deactivating, or updating to inactive, a category that is already inactive overwrites `deletedAt` with the current clock reading;
  - "blank" means nothing is left after `trim` (every character up to the space), rather than `String.isBlank`'s Unicode whitespace;
  - the fields of CategoryListOutput (id, name, description, active flag, createdAt, deletedAt) are assumed.
- ValidationHandler's append(handler) merge and validate(block) are not modelled. The category validator only appends single errors.
- Case-insensitive matching and sorting cover ASCII letters only. Unicode case folding and accent-insensitive collation ("Séries", "Documentários") are not modelled.
- Within a term, '%' and '_' are matched literally. The database treats them as LIKE wildcards.
- Lengths count Dafny characters, not UTF-16 code units.
- Rows whose sort keys are equal keep their storage order. The database leaves their order unspecified.
- The wording of the exceptions raised for a malformed query belongs to the paging library. Their order of checking is assumed.
- HTTP routing, JSON, the ORM's not-null constraints, dependency wiring and process start-up are outside the model.
