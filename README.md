# Book and todo CRUD services, modelled in Dafny

The repository holds three small REST services built on FastAPI. Each manages one kind of flat record:

- **In-memory book API** (`basics.py`). Books are kept in a process-wide `BOOKS` list. Each book has a random UUID, a title, an author, a description and a rating. There are handlers to list, get, create, partially update, delete one book and delete all books.
- **Todo API over a document collection** (`MongoDB/`). Todos have a name, a description, a completion flag and two timestamps. The handlers validate ObjectId strings before touching the collection. They list with a filter and `skip`/`limit`, get, create, update (fields sent as `null` are dropped, and an empty update is refused), toggle completion, delete one todo, delete all completed ones, and report statistics. A serializer with field defaults turns documents into responses.
- **Book API over a SQLite table** (`SQL/`). A mapped `books` table has a primary key, `NOT NULL` constraints and a `valid_rating` check constraint. The handlers do offset/limit listing, get, search (`ilike` on title and author, a minimum rating), create, partial update with `exclude_unset`, delete with id and title, and delete-all with a count.

The model contains these modules:

- `Common` holds the shared vocabulary:
  - `Option`, `Result`, and an `Error` type whose constructors carry the HTTP status code in a comment;
  - `Patch`, one field of a partial-update body. It tells apart a field left out, a field sent as `null`, and a field sent with a value;
  - the offset/limit `Window`.
- `Basics` models `basics.py`:
  - the Pydantic models, as validity predicates;
  - the `BOOKS` list, as a class `BookStore` holding a `seq<Book>`;
  - `find_book_by_id`, as a loop method;
  - each handler, as a method whose `ensures` gives the whole new list in terms of the old one.
- `TodoModels` and `TodoSchemas` model the todo Pydantic models and the serializer, covering:
  - the canonical text form of an ObjectId;
  - stored documents whose fields may be missing;
  - `individual_serial` and `list_serial`.
- `TodoRoutes` models the todo handlers over a class `TodoCollection`, which keeps the documents in natural (insertion) order.
- `SqlModels` models the table:
  - the columns, and the check constraint as a row invariant;
  - what writing a row does: a `NOT NULL` or check violation is an `IntegrityError`.
- `SqlSchemas` models the book schemas of the SQL service.
- `SqlLike` models `ilike` as SQLite evaluates it. The expression `x ilike p` is compiled to `lower(x) LIKE lower(p)`. The `%` and `_` characters in the pattern are wildcards, and only ASCII letters change case. The module proves that for a term that contains neither `%` nor `_`, the pattern `%term%` is the same as case-insensitive substring containment.
- `SqlMain` models the SQL handlers over a class `BookTable`. The class holds the rows as a `map<int, Row>` keyed by primary key, plus the keys in ascending order: SQLite's rowid order, in which an unordered query returns the rows. The `setattr` loop of `update_book` is a loop method. The new key is computed as SQLite does for an `INTEGER PRIMARY KEY` without `AUTOINCREMENT`: one more than the largest key, or 1 for an empty table.

Two example methods run a typical sequence of requests:

- `SqlMain.DuneExample` creates a book, reads it back, re-rates it, deletes it and reads it again.
- `TodoRoutes.TwoTodosExample` creates two todos, completes one, deletes the completed todos and reads the statistics.

Values the program gets from outside the model are method parameters:

- the UUID drawn by `uuid4()`;
- the ObjectId drawn by `insert_one`;
- the readings of `datetime.utcnow()`.

Behaviour of the code worth knowing:

- A schema violation is FastAPI's 422. FastAPI validates the body and the query before the handler runs, so validation comes first in every handler.
- The SQL search is a `LIKE` match, not a plain substring match. A `%` or `_` typed by the client is a wildcard (`SqlMain.UnderscoreIsWildcard`).
- Toggling twice restores the completion flag the client sees. A stored document without the field comes back with an explicit `false`.
- An update that sends `null` for a required field does not leave that field untouched:
  - In `basics.py` it stores the `null` (see Findings).
  - In the SQL service the write fails with an `IntegrityError` and the row is unchanged (`SqlMain.UpdateOutcome`).

## Model

| member | source | states |
|---|---|---|
| Common.Window | MongoDB/routes/route.py:44 | the window has min(limit, remaining) elements, element i being element skip+i of the input |
| Basics.ValidBookCreate | basics.py:24-29 | definition: title 1..200, author 1..100 and description 1..500 characters, rating 0..100 |
| Basics.ValidBookUpdate | basics.py:33-38 | definition: each field sent with a value has the create bounds; left-out and `null` fields are accepted |
| Basics.ValidBook | basics.py:41-47 | definition: the stored book has the create bounds on every field |
| Basics.UpdateBoundsMatchCreate | basics.py:24-38 | the update body satisfying all fields from a create body is valid iff the create body is; bodies that leave out or null every field are valid |
| Basics.NewBook | basics.py:119-125 | the new book carries the given UUID and the body's title, author, description and rating; it is a valid `Book` iff the body is a valid `BookCreate` |
| Basics.ModelCopy | basics.py:152-153 | the update as written keeps the id; for each field, a value sent replaces the stored one, a `null` sent is stored as `None`, and a field left out is kept |
| Basics.ModelCopyStoresNull | basics.py:152-155 | the body `{"title": null}` passes `BookUpdate` validation yet the copied book has no title and is not a valid `Book` |
| Basics.ModelCopyNullBreaksBook | basics.py:152-155 | for a valid book and a valid body, the copied record fails the `Book` model exactly when some field was sent as `null` |
| Basics.ApplyUpdate | basics.py:149-156 | the corrected update keeps the id; each field sent with a value replaces the stored one, each field left out or sent as `null` keeps it; a valid book under a valid body stays valid |
| Basics.ApplyUpdateAgreesWithModelCopy | basics.py:152-153 | the corrected update equals the written one on every body without `null`, and always leaves a valid book |
| Basics.ApplyUpdateLaws | basics.py:152-153 | an empty body changes nothing, and applying a body twice equals applying it once |
| Basics.IndexOf | basics.py:63-68 | the first position whose book has the id; `None` exactly when no book has it |
| Basics.RemoveAtIndex | basics.py:177-178 | removing the found entry of a list with distinct ids keeps ids distinct and leaves no book with that id |
| Basics.BookStore.constructor | basics.py:58 | the store starts empty and valid |
| Basics.BookStore.FindBookById | basics.py:63-68 | returns the first index holding a book with the id, with that book; `None` exactly when no book has the id |
| Basics.BookStore.GetAllBooks | basics.py:81-83 | returns the whole list in order |
| Basics.BookStore.GetBook | basics.py:96-104 | not-found exactly when no book has the id; otherwise `Ok` of the first such book |
| Basics.BookStore.CreateBook | basics.py:117-127 | an invalid body is a validation error and changes nothing; a valid one appends exactly one book with the fresh UUID and the body's fields and keeps the list valid |
| Basics.BookStore.UpdateBook | basics.py:140-156 | validation error, then not-found, each leaving the list unchanged; otherwise only the found entry is replaced, by the corrected update |
| Basics.BookStore.DeleteBook | basics.py:168-189 | not-found leaves the list unchanged; otherwise exactly the found entry is removed, the others keep their order, the id and title are reported and the id is gone |
| Basics.BookStore.DeleteAllBooks | basics.py:198-206 | reports the prior length and leaves the list empty |
| TodoModels.CompleteOf | MongoDB/models/todos.py:10 | the stored completion flag is true exactly when the client sent `true`, so an omitted flag is false |
| TodoModels.ValidTodoCreate | MongoDB/models/todos.py:6-15 | definition: name 1..100 and description 1..500 characters |
| TodoModels.ValidTodoUpdate | MongoDB/models/todos.py:18-22 | definition: a name or description sent with a value has the create bounds; left-out and `null` fields are accepted |
| TodoModels.ValidTodoResponse | MongoDB/models/todos.py:25-29 | definition: the response inherits the name and description bounds |
| TodoModels.UpdateBoundsMatchCreate | MongoDB/models/todos.py:8-22 | the update bounds are the create bounds; bodies with every field left out or null are valid |
| TodoSchemas.ParseObjectId | MongoDB/routes/route.py:13-21 | in the modelled 24-hexadecimal-digit form: an identifier exactly for 24 hex digits of either case, with the digits lower-cased |
| TodoSchemas.ParseIdText | MongoDB/schema/schemas.py:15 | the string form of an ObjectId parses back to the same ObjectId |
| TodoSchemas.WellFormedDoc | MongoDB/routes/route.py:80-84 | definition: the document `create_todo` writes: name and description present within the `TodoBase` bounds, `complete` and both timestamps present |
| TodoSchemas.IndividualSerial | MongoDB/schema/schemas.py:14-21 | total; id is the ObjectId's text; name and description are copied or default to ""; complete is true only when stored as true; timestamps are copied or absent |
| TodoSchemas.SerialRoundTrip | MongoDB/schema/schemas.py:14-21 | a document with all fields present can be rebuilt from its response; a well-formed document gives a valid `TodoResponse` |
| TodoSchemas.DefaultsFailResponseModel | MongoDB/schema/schemas.py:16-17 | the "" default for a missing name or description fails `TodoResponse` validation |
| TodoSchemas.ListSerial | MongoDB/schema/schemas.py:34 | same length and order, `individual_serial` at every position |
| TodoSchemas.ListSerialWindow | MongoDB/schema/schemas.py:34 | serializing a page equals taking the same page of the serialized list |
| TodoRoutes.IndexOfId | MongoDB/routes/route.py:58 | the first position whose `_id` is the id; `None` exactly when no document has it |
| TodoRoutes.Locate | MongoDB/routes/route.py:56-63 | a malformed id is rejected before any lookup; otherwise not-found exactly when no document has the parsed id, else its position |
| TodoRoutes.Matches | MongoDB/routes/route.py:40-42 | definition: no filter for `None`, otherwise equality on the stored `complete` field |
| TodoRoutes.Select | MongoDB/routes/route.py:40-44 | exactly the documents matching the completion filter, all of them when the filter is absent |
| TodoRoutes.SelectAppend | MongoDB/routes/route.py:40-44 | the query keeps collection order: selecting from `a + b` is selecting from `a` followed by selecting from `b` |
| TodoRoutes.SelectSingle | MongoDB/routes/route.py:40-42 | one document is selected exactly when it matches the filter |
| TodoRoutes.WithoutCompleted | MongoDB/routes/route.py:189 | keeps exactly the documents whose `complete` is not true; removed plus kept equals the total |
| TodoRoutes.WithoutCompletedAppend | MongoDB/routes/route.py:189 | `delete_many` keeps collection order: what is left of `a + b` is what is left of `a` followed by what is left of `b` |
| TodoRoutes.WithoutCompletedSingle | MongoDB/routes/route.py:189 | one document is kept exactly when its `complete` is not `true` |
| TodoRoutes.WithoutCompletedUnique | MongoDB/routes/route.py:189 | deleting the completed documents keeps identifiers distinct |
| TodoRoutes.PageMembers | MongoDB/routes/route.py:44-45 | every listed entry is the serialization of a stored document that matches the filter |
| TodoRoutes.RateBounds | MongoDB/routes/route.py:211 | the completion rate lies between 0 and 100 |
| TodoRoutes.NewDoc | MongoDB/routes/route.py:80-88 | the inserted document is well formed for a valid body and serializes to the body, its id and the two timestamps |
| TodoRoutes.HasFieldsToSet | MongoDB/routes/route.py:114-115 | definition: some field is left after the `None` fields are dropped |
| TodoRoutes.ApplyTodoUpdate | MongoDB/routes/route.py:113-123 | each field sent with a value is set and each field left out or `null` is kept; `_id` and `created_at` are kept, `updated_at` is the clock reading; well-formedness is preserved |
| TodoRoutes.ApplyTodoUpdateLaws | MongoDB/routes/route.py:113-123 | re-applying a body changes only `updated_at`; a body with nothing to set changes only `updated_at` |
| TodoRoutes.Toggled | MongoDB/routes/route.py:149-153 | `complete` becomes the negation of the old value read with default false; only it and `updated_at` change |
| TodoRoutes.ToggleTwice | MongoDB/routes/route.py:149-153 | two toggles restore the serialized completion; with a stored flag they restore the document except `updated_at` |
| TodoRoutes.TodoCollection.constructor | MongoDB/routes/route.py:37 | an empty collection, valid and well formed |
| TodoRoutes.TodoCollection.GetTodos | MongoDB/routes/route.py:24-45 | validation error exactly outside 0 <= skip and 1 <= limit <= 1000; else the serialized window of the matching documents, at most `limit`, each from a matching stored document; all documents for no filter |
| TodoRoutes.TodoCollection.DefaultQuery | MongoDB/routes/route.py:26-27 | with the defaults skip 0 and limit 100 the listing is the first hundred matching documents, serialized |
| TodoRoutes.TodoCollection.GetTodo | MongoDB/routes/route.py:48-65 | a malformed id is rejected, an absent one is not-found, else the serialized document; the response id parses to the requested id |
| TodoRoutes.TodoCollection.CreateTodo | MongoDB/routes/route.py:68-88 | an invalid body changes nothing; a valid one appends exactly one document and returns its serialization |
| TodoRoutes.TodoCollection.UpdateTodo | MongoDB/routes/route.py:91-127 | validation error, malformed id, not-found, then no-fields, each changing nothing; else only that document is updated |
| TodoRoutes.TodoCollection.ToggleTodo | MongoDB/routes/route.py:130-156 | malformed id or not-found changes nothing; else only that document is toggled and the response flag is the negation of the old one |
| TodoRoutes.TodoCollection.DeleteTodo | MongoDB/routes/route.py:159-177 | malformed id or not-found changes nothing; else exactly that document is removed, and a second delete is not-found |
| TodoRoutes.TodoCollection.DeleteCompletedTodos | MongoDB/routes/route.py:180-191 | removes exactly the completed documents and reports how many, zero included |
| TodoRoutes.TodoCollection.GetTodoStats | MongoDB/routes/route.py:194-212 | total and completed are the counts; completed + pending == total; the rate is 0 for an empty collection and within 0..100 |
| TodoRoutes.TwoTodosExample | MongoDB/routes/route.py:180-212 | with two todos of which one is toggled, delete-completed removes one and the stats show total 1, completed 0, pending 1 |
| TodoRoutes.CreateTwo | MongoDB/routes/route.py:68-88 | two creates leave exactly the two new documents, in order |
| TodoRoutes.ToggleSecond | MongoDB/routes/route.py:130-156 | toggling the second of two documents changes only that one |
| TodoRoutes.ExampleFacts | MongoDB/routes/route.py:56-58 | the lookups and filters of the two-todo example |
| SqlSchemas.RatingOf | SQL/schemas.py:33-39 | an omitted rating is 0; a valid body's rating lies in 0..100 |
| SqlSchemas.ValidBookCreate | SQL/schemas.py:13-44 | definition: title 1..200 and author 1..100 characters, description absent or at most 500, rating absent or in 0..100 |
| SqlSchemas.ValidBookUpdate | SQL/schemas.py:47-52 | definition: each field sent with a value has the create bounds; left-out and `null` fields are accepted |
| SqlSchemas.ValidBookResponse | SQL/schemas.py:13-57 | definition: a response carries the `BookBase` bounds: title 1..200, author 1..100, description absent or at most 500, rating 0..100 |
| SqlSchemas.UpdateBoundsMatchCreate | SQL/schemas.py:13-52 | update bounds equal create bounds; an empty body and an empty description are valid |
| SqlModels.RowInvariant | SQL/models.py:33-35 | definition: the `valid_rating` check constraint, rating in 0..100 |
| SqlModels.Flush | SQL/models.py:27-35 | the write succeeds exactly when title, author and rating are non-null and the rating is in 0..100; otherwise it is an `IntegrityError` |
| SqlModels.FlushPending | SQL/models.py:33-35 | a row writes back unchanged exactly when it satisfies the check constraint |
| SqlModels.Insert | SQL/models.py:26-30 | an omitted rating takes the column default 0; an out-of-range one is an `IntegrityError` |
| SqlLike.Like | SQL/main.py:127-129 | definition: SQLite `LIKE` on the lower-cased operands, `%` matching any run of characters and `_` any one character |
| SqlLike.Lower | SQL/main.py:127 | folds exactly the ASCII capitals |
| SqlLike.LikeAnything | SQL/main.py:127 | `%` matches every string |
| SqlLike.LikePrefix | SQL/main.py:127 | for a term without `%` or `_`, `term%` matches exactly the strings beginning with the term, ignoring ASCII case |
| SqlLike.LikeSuffix | SQL/main.py:127 | `%q` matches exactly when `q` matches some suffix |
| SqlLike.LikeContains | SQL/main.py:126-129 | for a term without wildcards, `%term%` matches iff the string contains the term ignoring case |
| SqlMain.Truthy | SQL/main.py:126-129 | definition: a search term filters only when it is given and not empty |
| SqlMain.MatchesSearch | SQL/main.py:124-131 | definition: the conjunction of the `ilike` filters for truthy terms and the rating bound when given |
| SqlMain.SqlWindow | SQL/main.py:79 | exactly min(limit, remaining) rows, a negative offset reading as 0 and a negative limit as no limit; none for limit 0, all for no offset and no limit, row i being row offset+i |
| SqlMain.Search | SQL/main.py:124-133 | exactly the rows meeting every supplied criterion, at most as many as the input |
| SqlMain.SearchAppend | SQL/main.py:124-133 | the search keeps rowid order: searching `a + b` is searching `a` followed by searching `b` |
| SqlMain.SearchSingle | SQL/main.py:124-133 | one row is returned exactly when it meets the criteria |
| SqlMain.SearchAllMatch | SQL/main.py:124-133 | when every row meets the criteria the search returns every row, in order |
| SqlMain.SearchWithoutCriteria | SQL/main.py:124-133 | empty or absent terms and a minimum rating of at most 0 return every stored row |
| SqlMain.SearchByContainment | SQL/main.py:126-129 | with wildcard-free terms the search is case-insensitive containment on title and author plus the rating bound |
| SqlMain.UnderscoreIsWildcard | SQL/main.py:126-127 | a title search for `_` matches every non-empty title |
| SqlMain.Without | SQL/main.py:211 | exactly the other keys remain |
| SqlMain.WithoutIncreasing | SQL/main.py:211 | removing a key keeps the keys in ascending order |
| SqlMain.IncreasingCard | SQL/main.py:229 | distinct keys are as many as the listing is long |
| SqlMain.UpdateData | SQL/main.py:180 | at most four assignments, none exactly for an empty body |
| SqlMain.Assign | SQL/main.py:182 | definition: one `setattr` replaces exactly the named field |
| SqlMain.AssignAll | SQL/main.py:181-182 | the assignments never change the primary key |
| SqlMain.ApplyUpdateData | SQL/main.py:181-182 | the loop yields the assignments applied one after another |
| SqlMain.Patched | SQL/main.py:179-187 | the key is kept; a title, author or rating sent with a value replaces the stored one, otherwise it is kept; a description sent with a value replaces it, one sent as `null` clears it, one left out is kept; a valid body keeps a stored row within the constraints and schema bounds |
| SqlMain.UpdateOutcome | SQL/main.py:180-185 | a `null` title, author or rating makes the commit fail; otherwise the row becomes the patched row; an empty body is a no-op |
| SqlMain.BookTable.constructor | SQL/main.py:23 | an empty, valid table |
| SqlMain.BookTable.Listing | SQL/main.py:79 | the rows in ascending key order, every stored row included |
| SqlMain.BookTable.NextId | SQL/models.py:26 | the new key is larger than every stored key, so it is fresh |
| SqlMain.BookTable.GetAllBooks | SQL/main.py:68-80 | the offset/limit window of the listing |
| SqlMain.BookTable.DefaultListing | SQL/main.py:69-70 | with the defaults skip 0 and limit 100 the listing is the first hundred rows in rowid order |
| SqlMain.BookTable.GetBook | SQL/main.py:93-102 | the row with that key, or not-found exactly when there is none |
| SqlMain.BookTable.SearchBooks | SQL/main.py:111-133 | the search over the listing in rowid order; a stored row is returned iff it meets every supplied criterion; all rows for no criteria |
| SqlMain.BookTable.CreateBook | SQL/main.py:143-156 | an invalid body changes nothing; a valid one adds exactly one row under a fresh key with the body's fields and defaulted rating |
| SqlMain.BookTable.UpdateBook | SQL/main.py:169-187 | validation error, then not-found, each changing nothing; else the commit of the sent fields, with the row becoming the patched row or the table unchanged on an integrity error |
| SqlMain.BookTable.DeleteBook | SQL/main.py:200-218 | not-found changes nothing; else exactly that row is removed and its key and prior title are reported |
| SqlMain.BookTable.DeleteAllBooks | SQL/main.py:227-233 | reports the prior row count and leaves the table empty |
| SqlMain.DuneExample | SQL/main.py:93-218 | create, get, update the rating, delete and get again give the row, the same row, the re-rated row, the delete report and not-found |
| SqlMain.ExampleFacts | SQL/main.py:169-187 | the validation and the commit of the book example |

## Left out

- HTTP and FastAPI plumbing is not modelled: routing, status codes (shown only as `Error` constructors), `detail` texts, response-model filtering and `async` scheduling.
- Path parameters arrive already parsed: UUIDs in `basics.py`, integers in the SQL service. A path that does not parse is a 422 raised before the handler runs.
- The message strings of the bulk deletes (`Deleted N completed todos`, `Successfully deleted N book(s)`) are not modelled; the handlers return the count. The static `root` payload of the SQL service is also left out.
- The database, configuration and settings modules are left out: connections, sessions, `.env` loading and app wiring.
- Concurrent requests are left out; every handler is one atomic step on the store.
- TodoRoutes.TodoCollection.GetTodoStats: the completion rate is the exact rational value, without floating point or `round(..., 2)`.
- TodoSchemas.ParseObjectId: only the 24-hexadecimal-digit text form is modelled, and every other string counts as `InvalidId`. bson is not part of this model. Any other text its `ObjectId(str)` may accept (for example hex digits around ASCII whitespace, if it decodes with `bytes.fromhex`) is not modelled, nor are 12-byte values or ObjectId instances.
- Documents written by other clients with fields of the wrong type are not modelled. A stored `complete: null` is one such document, and toggling it would read as `true`. The handlers here never write such fields.
- An explicit `null` for `complete` when creating a todo, or for `rating` when creating a SQL book, is a 422 and cannot be written in the model's create bodies.
- Timestamps are integers. `created_at <= updated_at` is not claimed, since the two clock readings are independent parameters.
- SqlMain.BookTable.NextId: the random key SQLite picks once the largest key reaches 2^63 - 1 is not modelled. Key reuse after the largest row is deleted is modelled, following SQLite's rule.
- SQLite does not enforce `VARCHAR` lengths. Stored rows nonetheless meet the schema bounds, because every write is validated first.
- Integer query and path parameters are unbounded in the model. The source sends them to the database as 64-bit integers, and a value outside -2^63 .. 2^63 - 1 fails there with an overflow error (a 500). This covers `skip`, `limit` and the path `book_id` of the SQL service (SQL/main.py:69-70, 93, 169, 200), `min_rating` of its search (SQL/main.py:114), and `skip` of `get_todos`, encoded as a BSON int64. For such a value the model instead answers as for any other integer: `SqlMain.BookTable.GetBook` returns not-found, for example.
- Basics.BookStore.UpdateBook: follows the corrected update, in which an explicit `null` keeps the stored value. The update as written is `Basics.ModelCopy` (see Findings).

## Findings

| source | as written | input that shows it | evidently intended | confidence | as-written member | corrected member |
|---|---|---|---|---|---|---|
| basics.py:152-155 | `BookUpdate` allows `null` for every field. `model_copy(update=model_dump(exclude_unset=True))` does not validate, so a field sent as `null` is stored as `None` in `BOOKS`. | `PUT /books/{id}` with body `{"title": null}` | a `null` (optional) field leaves the stored value untouched, so `BOOKS` only ever holds valid `Book` records | not executed | Basics.ModelCopyStoresNull | Basics.ApplyUpdate |
