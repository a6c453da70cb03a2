# Library and items services, modelled in Dafny

This project models the small amount of real logic in the `vyvoj-IS` repository.
All of it is built around one idea: a collection of records keyed by id.

- **The in-memory items service** (`app.py`, Flask) is modelled in `items_api.dfy`, as the class `ItemsApi.Store`.
  - State: a list of `{id, name, description}` records and a `next_id` counter.
  - Operations: GET/POST `/items` and GET/PUT/DELETE `/items/<id>`.
  - Invariant: ids are unique and all below the counter.
- **The book back end** (`routes.py`, `models.py`, Flask and SQLAlchemy) is modelled in `book_model.dfy` and `book_routes.dfy`.
  - A row is the datatype `BookModel.Book`.
  - The schema's constraints are:
    - the id is the primary key;
    - title and author are NOT NULL;
    - a non-null ISBN is UNIQUE;
    - columns have declared widths, enforced only by a database that enforces them.
  - `to_dict` is `BookModel.ToDict`.
  - The table and its session are the class `BookRoutes.BookTable`, holding a `map<int, Book>`.
  - A handler whose commit fails is rolled back: the table is left unchanged and the answer is 500.
- **The add-book form** (`AddBookForm.js`, React) is modelled in `add_book_form.dfy`, on top of `js_text.dfy`.
  - `js_text.dfy` models the JavaScript `trim` and `parseInt` as ECMAScript defines them.
  - `AddBookForm.NewBookData` is the pure validation and payload.
  - `AddBookForm.Form.HandleSubmit` is the handler, including the reset of the four fields.
- **The front end's list state** (`App.js`) is modelled in `app_state.dfy`, as the class `LibraryApp.App`, with the fields `books`, `loading` and `error`.
  - `fetchBooks` is split at its `await` into `BeginFetch` and `FinishFetch`.
  - `handleAddBook` and `handleDeleteBook` take the outcome of their request as a parameter.
- **Cross-layer facts** are in `client_server.dfy`:
  - every payload the form sends passes `add_book`'s validation;
  - the client's local delete leaves exactly the rows the server keeps.

Shared modules:

- `wrappers.dfy`: `Option`.
- `json.dfy`: scalar JSON values and objects.
- `seqs.dfy`: the order-preserving filter, shared by a Python list comprehension and `Array.prototype.filter`.
- `decimal.dfy`: decimal rendering and reading of integers.

Inputs from outside the program become parameters:

- a request body, as `Option<Object>`. `None` stands for an absent body or the JSON `null`. For `update_book`, which reads the body with `silent=True`, it also stands for a body that does not parse;
- the outcome of a request in the front end, as `LibraryApp.Reply`;
- the user's answer to `window.confirm`;
- the id the database assigns to a new row;
- whether the database accepts a commit for reasons outside the schema (`accepted`).

### Behaviour worth noting

- **Title and author on the server.** `add_book` checks only that the keys "title" and "author" are present (`routes.py:37`), so `""` and `null` pass validation.
  - A `null` is refused at commit, by NOT NULL.
  - An empty string is stored.
  - `BookRoutes.HasRequiredKeys` models the check as written.
- **The form is cleared whatever the request's outcome.** The four fields are reset right after `onAddBook` is called (`AddBookForm.js:33-39`), never after a failure is known. `AddBookForm.Form.HandleSubmit` states this.

## Model

| member | source | states |
|---|---|---|
| ItemsApi.Store.constructor | 03-vyvoj-web-server/01-HTTP-REST-Frameworky/priklad/app.py:7-12 | The service starts with the two records with ids 1 and 2 and the counter at 3, and the invariant (unique ids, all below the counter) holds. |
| ItemsApi.Lookup | 03-vyvoj-web-server/01-HTTP-REST-Frameworky/priklad/app.py:31 | The `next(...)` search answers a stored record carrying the id. It answers nothing exactly when no record carries the id. |
| ItemsApi.LookupFirst | 03-vyvoj-web-server/01-HTTP-REST-Frameworky/priklad/app.py:31 | The first position holding an id is the record the search answers. |
| ItemsApi.LookupAt | 03-vyvoj-web-server/01-HTTP-REST-Frameworky/priklad/app.py:31 | With unique ids, any record is the one found for its own id. |
| ItemsApi.HasName | 03-vyvoj-web-server/01-HTTP-REST-Frameworky/priklad/app.py:46 | The body test: `not request.json` adds nothing to the key test, so a body passes exactly when it is present and has a "name" member, whatever its value. |
| Json.IsNonEmptyObject | 03-vyvoj-web-server/01-HTTP-REST-Frameworky/priklad/app.py:46 | `not request.json` / `not data`: an absent body and the empty object are falsy; any object with a member is truthy. |
| Json.Get | 03-vyvoj-web-server/01-HTTP-REST-Frameworky/priklad/app.py:56 | `dict.get(key, default)`: the member's value when the key is present, the default otherwise. |
| ItemsApi.Store.Find | 03-vyvoj-web-server/01-HTTP-REST-Frameworky/priklad/app.py:69 | The linear search returns the first position whose record has the id, or reports that no record has it. |
| ItemsApi.Store.GetItems | 03-vyvoj-web-server/01-HTTP-REST-Frameworky/priklad/app.py:19-22 | Listing answers 200 with every record, in stored order. |
| ItemsApi.Store.GetItem | 03-vyvoj-web-server/01-HTTP-REST-Frameworky/priklad/app.py:27-37 | A stored id answers 200 with its record. An unknown id answers 404 with the message naming the id. |
| ItemsApi.NotFoundText | 03-vyvoj-web-server/01-HTTP-REST-Frameworky/priklad/app.py:72 | The 404 description is the fixed prefix, the id in decimal and the fixed sentence, at fixed offsets. |
| ItemsApi.NotFoundTextNamesId | 03-vyvoj-web-server/01-HTTP-REST-Frameworky/priklad/app.py:37 | The id can be read back from the 404 description: the digit run right after the prefix (after a '-' for a negative id) is its magnitude. |
| ItemsApi.LookupAfterAppend | 03-vyvoj-web-server/01-HTTP-REST-Frameworky/priklad/app.py:58 | Appending a record adds an answer only for an id no earlier record had, and changes no existing answer. |
| ItemsApi.Store.CreateItem | 03-vyvoj-web-server/01-HTTP-REST-Frameworky/priklad/app.py:42-62 | A body that is missing, empty or lacks "name" gives 400 and changes nothing. Otherwise exactly one record is appended, with the old counter as its id and "" as its description when the body has none; the counter grows by one; the answer is 201 with the record; the invariant is kept, so the new id was fresh. |
| ItemsApi.LookupAfterReplace | 03-vyvoj-web-server/01-HTTP-REST-Frameworky/priklad/app.py:78-81 | Replacing a record by one with the same id changes the answer for that id only. |
| ItemsApi.Store.UpdateItem | 03-vyvoj-web-server/01-HTTP-REST-Frameworky/priklad/app.py:67-83 | An unknown id gives 404 before the body is looked at. A body without "name" then gives 400. Both leave everything unchanged. Otherwise only the matching record changes: its name is the body's, and its description is the body's or the old one. The id, the other records, their order and the counter stay; the answer is 200 with the record. |
| ItemsApi.WithoutId | 03-vyvoj-web-server/01-HTTP-REST-Frameworky/priklad/app.py:97 | The list after the delete filter is never longer than before, and no record left in it carries the deleted id. |
| ItemsApi.LookupAfterRemove | 03-vyvoj-web-server/01-HTTP-REST-Frameworky/priklad/app.py:97 | After the delete filter, the deleted id is found nowhere, and every other id is found as before. |
| ItemsApi.RemoveUnique | 03-vyvoj-web-server/01-HTTP-REST-Frameworky/priklad/app.py:97 | With unique ids, the filter removes exactly the one record and keeps the rest in order. |
| ItemsApi.Store.DeleteItem | 03-vyvoj-web-server/01-HTTP-REST-Frameworky/priklad/app.py:88-100 | An unknown id gives 404 and changes nothing. A stored id gives an empty 204. The list loses exactly that record, the others keep their order and their answers, and the counter is unchanged (ids are not reused). |
| BookModel.Constraints | 01-uvodni-hodina/motivacni-priklad/backend/app/models.py:15-25 | The schema: every row stored under its own id, title and author NOT NULL, a non-null ISBN unique, and the widths where enforced. A table that meets it never stores the same record under two keys. |
| BookModel.ToDict | 01-uvodni-hodina/motivacni-priklad/backend/app/models.py:35-41 | A served dictionary has exactly the five keys id, title, author, isbn and publication_year. |
| BookModel.FromToDict | 01-uvodni-hodina/motivacni-priklad/backend/app/models.py:35-41 | Each key of the served dictionary holds its column unchanged: reading the dictionary back gives the row. |
| BookModel.ToDictInjective | 01-uvodni-hodina/motivacni-priklad/backend/app/models.py:35-41 | Different rows are served as different dictionaries. |
| BookModel.ConstraintsAfterRemove | 01-uvodni-hodina/motivacni-priklad/backend/app/models.py:15-25 | Removing a row keeps every constraint: the primary key, NOT NULL, unique ISBN and, where enforced, the widths. |
| BookRoutes.BookTable.constructor | 01-uvodni-hodina/motivacni-priklad/backend/app/models.py:12-25 | A new table is empty and meets the schema. |
| BookRoutes.DictsInSomeOrder | 01-uvodni-hodina/motivacni-priklad/backend/app/routes.py:18-20 | The comprehension produces one dictionary per stored row. It visits each key exactly once, in an order the database chooses. |
| BookRoutes.ListingComplete | 01-uvodni-hodina/motivacni-priklad/backend/app/routes.py:18-20 | Such a list contains only dictionaries of stored rows and every stored row's dictionary, each once. |
| BookRoutes.ListingSound | 01-uvodni-hodina/motivacni-priklad/backend/app/routes.py:18-20 | Dictionaries built from stored keys are dictionaries of stored rows. |
| BookRoutes.ListingDistinct | 01-uvodni-hodina/motivacni-priklad/backend/app/routes.py:18-20 | Dictionaries built from distinct keys are distinct. |
| BookRoutes.ListingCovers | 01-uvodni-hodina/motivacni-priklad/backend/app/routes.py:18-20 | A dictionary built for every key holds every row's dictionary. |
| BookRoutes.BookTable.GetBooks | 01-uvodni-hodina/motivacni-priklad/backend/app/routes.py:15-24 | The answer is 200 with a list as long as the table. The list holds the dictionary of every stored row, nothing else, with no repeats. |
| BookRoutes.BookTable.GetBook | 01-uvodni-hodina/motivacni-priklad/backend/app/routes.py:61-66 | A stored id answers 200 with its row's dictionary. An unknown id is not found. |
| BookRoutes.HasRequiredKeys | 01-uvodni-hodina/motivacni-priklad/backend/app/routes.py:37 | The validation of `add_book`: `not data` adds nothing to the key tests, so a body passes exactly when it is present and has both the "title" and the "author" key, whatever their values (`""` and `null` included). |
| BookRoutes.NewRow | 01-uvodni-hodina/motivacni-priklad/backend/app/routes.py:41-46 | The new row has the assigned id. In its served dictionary each of title, author, isbn and publication_year holds the body's value for that key, or null when the body lacks it. |
| BookRoutes.BookTable.AddBook | 01-uvodni-hodina/motivacni-priklad/backend/app/routes.py:31-57 | A `None` body (JSON `null`), an empty object, or one lacking "title" or "author" gives 400 and inserts nothing. Otherwise one row is built from the given title and author, with isbn and publication_year from the body or null. If the commit succeeds, exactly that row is added under the assigned id and the answer is 201 with its dictionary. If the commit fails (a taken id, a NOT NULL or UNIQUE violation, a refusal), the table is unchanged and the answer is 500. The schema is kept either way. |
| BookRoutes.Merge | 01-uvodni-hodina/motivacni-priklad/backend/app/routes.py:90-93 | The updated row keeps its id. In its served dictionary each of the four column keys holds the body's value when the body has that key, and the row's old value otherwise. |
| BookRoutes.MergeEmpty | 01-uvodni-hodina/motivacni-priklad/backend/app/routes.py:90-93 | An update body without any of the four keys keeps every column. |
| BookRoutes.MergeIdempotent | 01-uvodni-hodina/motivacni-priklad/backend/app/routes.py:90-93 | Applying the same update body twice equals applying it once. |
| BookRoutes.MergeDict | 01-uvodni-hodina/motivacni-priklad/backend/app/routes.py:90-93 | Updating with another book's served dictionary copies its four columns and keeps the target's id. |
| BookRoutes.BookTable.UpdateBook | 01-uvodni-hodina/motivacni-priklad/backend/app/routes.py:72-99 | An unknown id is not found and changes nothing. A missing or unparsable body gives 400 and changes nothing. Otherwise each of the four columns takes the body's value when its key is present and keeps its old value otherwise. Only that row changes, and its id is kept. A committed update answers 200 with the dictionary; a failed one is rolled back with 500. |
| BookRoutes.BookTable.DeleteBook | 01-uvodni-hodina/motivacni-priklad/backend/app/routes.py:103-117 | An unknown id is not found and changes nothing. Otherwise, if the commit succeeds, exactly that row is removed and the answer is an empty 204. If it fails, nothing changes and the answer is 500. |
| AddBookForm.IsbnValue | 01-uvodni-hodina/motivacni-priklad/frontend/src/components/AddBookForm.js:27 | The ISBN is null exactly when the field holds only white space (or nothing). Otherwise it is non-empty text no longer than what was typed. |
| AddBookForm.YearValue | 01-uvodni-hodina/motivacni-priklad/frontend/src/components/AddBookForm.js:29 | A blank year field is sent as null. A year is sent exactly when `parseInt` of the trimmed text is truthy (neither NaN nor zero), and then it is that number. |
| AddBookForm.NewBookData | 01-uvodni-hodina/motivacni-priklad/frontend/src/components/AddBookForm.js:17-30 | The form is refused exactly when the title or the author trims to nothing. An accepted payload has a non-empty title and author, each no longer than typed, an ISBN that is non-empty or null, and a year that is non-zero or null. |
| AddBookForm.Form.constructor | 01-uvodni-hodina/motivacni-priklad/frontend/src/components/AddBookForm.js:7-10 | All four fields start as the empty string. |
| AddBookForm.Form.Clear | 01-uvodni-hodina/motivacni-priklad/frontend/src/components/AddBookForm.js:36-39 | The four setters leave every field as the empty string. |
| AddBookForm.Form.HandleSubmit | 01-uvodni-hodina/motivacni-priklad/frontend/src/components/AddBookForm.js:13-40 | A blank title or author raises the alert, does not call `onAddBook`, and leaves every field as it was. Otherwise `onAddBook` is called once with the payload, and all four fields become "". |
| AddBookForm.RejectsBlankTitleOrAuthor | 01-uvodni-hodina/motivacni-priklad/frontend/src/components/AddBookForm.js:17-20 | The form is refused exactly when the title or the author consists of white space only, or is empty. |
| AddBookForm.AcceptedPayloadIsTrimmed | 01-uvodni-hodina/motivacni-priklad/frontend/src/components/AddBookForm.js:24-27 | The title and author sent are the trimmed inputs, non-empty and free of surrounding white space. The ISBN is the trimmed input, or null exactly when that is empty. |
| AddBookForm.AcceptsUnpadded | 01-uvodni-hodina/motivacni-priklad/frontend/src/components/AddBookForm.js:17-25 | A title and an author typed without surrounding white space are accepted and sent as typed. |
| AddBookForm.YearOfDecimal | 01-uvodni-hodina/motivacni-priklad/frontend/src/components/AddBookForm.js:29 | A year typed as a decimal integer, with any white space around it, is sent as that integer. Zero is sent as null (`0 \|\| null`). |
| AddBookForm.YearOfNonNumeric | 01-uvodni-hodina/motivacni-priklad/frontend/src/components/AddBookForm.js:29 | Year text whose trimmed form starts with neither a digit nor a sign (such as "abc", " abc" or "abc ") is sent as null, because `parseInt` gives NaN. A blank field is sent as null too. |
| AddBookForm.YearOf1965 | 01-uvodni-hodina/motivacni-priklad/frontend/src/components/AddBookForm.js:29 | "1965" is sent as 1965. |
| AddBookForm.ShowInt1965 | 01-uvodni-hodina/motivacni-priklad/frontend/src/components/AddBookForm.js:29 | 1965 is written "1965". |
| AddBookForm.YearOfAbc | 01-uvodni-hodina/motivacni-priklad/frontend/src/components/AddBookForm.js:29 | "abc" is sent as null. |
| AddBookForm.YearOfZero | 01-uvodni-hodina/motivacni-priklad/frontend/src/components/AddBookForm.js:29 | "0" is sent as null. |
| AddBookForm.ToJson | 01-uvodni-hodina/motivacni-priklad/frontend/src/App.js:52 | The JSON the form's payload is sent as has exactly the members title, author, isbn and publication_year. The title and author are strings, and the ISBN and year are null exactly when the payload has none. |
| AddBookForm.DuneExample | 01-uvodni-hodina/motivacni-priklad/frontend/src/components/AddBookForm.js:23-30 | "Dune", "Frank Herbert", an empty ISBN and "1965" give a null ISBN and the year 1965. |
| JsText.Trim | 01-uvodni-hodina/motivacni-priklad/frontend/src/components/AddBookForm.js:17 | `trim()` never lengthens its input; what it keeps and drops is stated by TrimIsSlice, TrimEdges and TrimEmptyIffBlank. |
| JsText.ParseInt | 01-uvodni-hodina/motivacni-priklad/frontend/src/components/AddBookForm.js:29 | `parseInt` gives NaN for text that is white space only, and for text whose first character after the white space is neither a digit nor a sign. |
| JsText.Truthy | 01-uvodni-hodina/motivacni-priklad/frontend/src/components/AddBookForm.js:29 | Under `\|\| null`, exactly NaN and zero are falsy. |
| JsText.LeadingWhiteSpace | 01-uvodni-hodina/motivacni-priklad/frontend/src/components/AddBookForm.js:17 | The count of leading characters `trim` drops: all of them white space, and the next character (if any) is not. |
| JsText.TrailingWhiteSpace | 01-uvodni-hodina/motivacni-priklad/frontend/src/components/AddBookForm.js:17 | The count of trailing characters `trim` drops: all of them white space, and the character before them (if any) is not. |
| JsText.TrimIsSlice | 01-uvodni-hodina/motivacni-priklad/frontend/src/components/AddBookForm.js:24-25 | `trim()` is the slice between the leading and the trailing white space. |
| JsText.TrimEdges | 01-uvodni-hodina/motivacni-priklad/frontend/src/components/AddBookForm.js:24-25 | `trim()` neither starts nor ends with white space. |
| JsText.TrimEmptyIffBlank | 01-uvodni-hodina/motivacni-priklad/frontend/src/components/AddBookForm.js:17 | The trimmed string is empty exactly when the input has only white space. |
| JsText.TrimIdempotent | 01-uvodni-hodina/motivacni-priklad/frontend/src/components/AddBookForm.js:29 | Trimming twice (as `publicationYear.trim()` does before `parseInt`) equals trimming once. |
| JsText.TrimStartOfUnpadded | 01-uvodni-hodina/motivacni-priklad/frontend/src/components/AddBookForm.js:29 | Text that does not start with white space is what `parseInt` starts reading from. |
| JsText.TrimOfUnpadded | 01-uvodni-hodina/motivacni-priklad/frontend/src/components/AddBookForm.js:24-25 | Text that neither starts nor ends with white space trims to itself. |
| JsText.LeadingOfPadded | 01-uvodni-hodina/motivacni-priklad/frontend/src/components/AddBookForm.js:24-25 | Exactly the white space put in front of unpadded text is dropped at the start. |
| JsText.TrailingOfPadded | 01-uvodni-hodina/motivacni-priklad/frontend/src/components/AddBookForm.js:24-25 | Exactly the white space put behind unpadded text is dropped at the end. |
| JsText.TrimOfPadded | 01-uvodni-hodina/motivacni-priklad/frontend/src/components/AddBookForm.js:24-25 | Trimming white-space-padded text gives back the unpadded text. |
| JsText.ParseIntOfDigitStart | 01-uvodni-hodina/motivacni-priklad/frontend/src/components/AddBookForm.js:29 | Text starting with a digit is read as the value of its leading digit run. |
| JsText.ParseIntOfMinus | 01-uvodni-hodina/motivacni-priklad/frontend/src/components/AddBookForm.js:29 | A minus sign before a digit run negates the value read. |
| JsText.ParseIntOfPlus | 01-uvodni-hodina/motivacni-priklad/frontend/src/components/AddBookForm.js:29 | A plus sign before a digit run is skipped: the digit run's value is read. |
| JsText.ParseIntOfBareSign | 01-uvodni-hodina/motivacni-priklad/frontend/src/components/AddBookForm.js:29 | A sign that no digit follows, after any leading white space ("-", "+x"), reads as NaN. |
| JsText.ParseIntOfShowNat | 01-uvodni-hodina/motivacni-priklad/frontend/src/components/AddBookForm.js:29 | `parseInt` reads back the decimal digits of a natural number, whatever non-digit text follows them. |
| JsText.ShowIntUnpadded | 01-uvodni-hodina/motivacni-priklad/frontend/src/components/AddBookForm.js:29 | An integer written in decimal neither starts nor ends with white space, so trimming keeps it whole. |
| JsText.ParseIntOfShowInt | 01-uvodni-hodina/motivacni-priklad/frontend/src/components/AddBookForm.js:29 | `parseInt` reads back any integer written in decimal, whatever non-digit text follows it. |
| Decimal.ShowNat | 03-vyvoj-web-server/01-HTTP-REST-Frameworky/priklad/app.py:37 | A natural number is written as a non-empty run of digits with no leading zero. |
| Decimal.ShowInt | 01-uvodni-hodina/motivacni-priklad/frontend/src/App.js:27 | An integer is written as non-empty text that starts with '-' exactly when it is negative. |
| Decimal.DigitsValueOfShowNat | 01-uvodni-hodina/motivacni-priklad/frontend/src/components/AddBookForm.js:29 | Reading back the digits of a natural number gives the number. |
| Decimal.LeadingDigits | 01-uvodni-hodina/motivacni-priklad/frontend/src/components/AddBookForm.js:29 | The result is the longest digit prefix: a prefix, all digits, followed by a non-digit or by nothing. |
| Decimal.LeadingDigitsOfPrefix | 01-uvodni-hodina/motivacni-priklad/frontend/src/components/AddBookForm.js:29 | A digit run followed by a non-digit is exactly the leading digit run. |
| Seqs.Filter | 03-vyvoj-web-server/01-HTTP-REST-Frameworky/priklad/app.py:97 | Filtering never lengthens a list. |
| Seqs.FilterMembership | 03-vyvoj-web-server/01-HTTP-REST-Frameworky/priklad/app.py:97 | An element survives the filter exactly when it was there and passes the test. |
| Seqs.FilterAllKept | 01-uvodni-hodina/motivacni-priklad/frontend/src/App.js:83 | Every survivor passes the test. |
| Seqs.FilterConcat | 01-uvodni-hodina/motivacni-priklad/frontend/src/App.js:83 | Filtering distributes over concatenation, so survivors keep their relative order. |
| Seqs.FilterKeepsAll | 01-uvodni-hodina/motivacni-priklad/frontend/src/App.js:83 | When every element passes, the list is unchanged. |
| Seqs.FilterIdempotent | 01-uvodni-hodina/motivacni-priklad/frontend/src/App.js:83 | Filtering twice equals filtering once. |
| Seqs.FilterDropsRejected | 01-uvodni-hodina/motivacni-priklad/frontend/src/App.js:83 | A single element that fails the test is filtered to nothing. |
| Seqs.FilterDropsOne | 03-vyvoj-web-server/01-HTTP-REST-Frameworky/priklad/app.py:97 | When exactly one position fails the test, the filter removes just that position and keeps the rest in order. |
| LibraryApp.App.constructor | 01-uvodni-hodina/motivacni-priklad/frontend/src/App.js:9-13 | The page starts with no books, loading, and no error. |
| LibraryApp.App.BeginFetch | 01-uvodni-hodina/motivacni-priklad/frontend/src/App.js:21-22 | Starting a fetch sets loading, clears the error and keeps the books. |
| LibraryApp.App.FinishFetch | 01-uvodni-hodina/motivacni-priklad/frontend/src/App.js:23-36 | Loading ends whatever happened. An ok answer replaces the books with its list wholesale. A non-ok answer keeps the books and sets "Chyba <status>: <status text, or the fixed sentence when it is empty>". An exception keeps the books and sets its message. |
| LibraryApp.App.FetchBooks | 01-uvodni-hodina/motivacni-priklad/frontend/src/App.js:20-37 | An uninterrupted fetch ends not loading. On success it has the answer's books and no error. On failure it has the old books and the failure's message. |
| LibraryApp.LoadError | 01-uvodni-hodina/motivacni-priklad/frontend/src/App.js:27 | The loading error starts with "Chyba ". After the status it always carries a non-empty explanation: the status text, or the fixed sentence when the status text is empty. |
| LibraryApp.StatusErrorCarriesStatus | 01-uvodni-hodina/motivacni-priklad/frontend/src/App.js:27 | A status error message starts with "Chyba ", `parseInt` of the rest gives back the status, and it ends with ": " and the detail. |
| LibraryApp.StatusErrorParts | 01-uvodni-hodina/motivacni-priklad/frontend/src/App.js:27 | The prefix, the status and ": " with the detail sit at fixed places in the message. |
| LibraryApp.StatusError | 01-uvodni-hodina/motivacni-priklad/frontend/src/App.js:55 | A status error message is non-empty: at least the prefix, a digit, ": " and the detail. |
| LibraryApp.StatusErrorInjective | 01-uvodni-hodina/motivacni-priklad/frontend/src/App.js:79 | Failures with different statuses or details show different messages. |
| LibraryApp.App.HandleAddBook | 01-uvodni-hodina/motivacni-priklad/frontend/src/App.js:45-64 | An ok answer starts a new fetch (loading, no error) and nothing else. A failure sets "Chyba <status>: Nepodařilo se přidat knihu", or the exception's message, and leaves loading. The books are never touched. |
| LibraryApp.DeleteSucceeded | 01-uvodni-hodina/motivacni-priklad/frontend/src/App.js:76-80 | A 204 answer counts as a successful delete whatever `response.ok` says. An exception never does. |
| LibraryApp.FailureMessage | 01-uvodni-hodina/motivacni-priklad/frontend/src/App.js:54-62 | A handler's failure shows the exception's own message, or for an unsuccessful answer "Chyba ", the status (which `parseInt` reads back) and ": " with the detail. |
| LibraryApp.App.HandleDeleteBook | 01-uvodni-hodina/motivacni-priklad/frontend/src/App.js:67-88 | A declined confirmation sends nothing and changes nothing. An ok or 204 answer removes every book with that id and keeps the rest in order. Any other outcome keeps the books and sets "Chyba <status>: Nepodařilo se smazat knihu", or the exception's message. Loading is never touched. |
| LibraryApp.WithoutBookMembership | 01-uvodni-hodina/motivacni-priklad/frontend/src/App.js:83 | A book survives a delete exactly when it was listed and does not carry the id. |
| LibraryApp.HasId | 01-uvodni-hodina/motivacni-priklad/frontend/src/App.js:83 | `book.id === id`: a book without an id member matches no id. |
| LibraryApp.HasIdUnique | 01-uvodni-hodina/motivacni-priklad/frontend/src/App.js:83 | A book matches one id at most, so deleting one id never removes a book listed under another. |
| LibraryApp.WithoutBook | 01-uvodni-hodina/motivacni-priklad/frontend/src/App.js:83 | The filtered list is never longer than before, and no book left in it carries the deleted id. |
| LibraryApp.WithoutAbsentId | 01-uvodni-hodina/motivacni-priklad/frontend/src/App.js:83 | Deleting an id no book carries changes nothing. |
| LibraryApp.WithoutBookIdempotent | 01-uvodni-hodina/motivacni-priklad/frontend/src/App.js:83 | Deleting the same id twice equals deleting it once. |
| LibraryApp.WithoutUniqueId | 01-uvodni-hodina/motivacni-priklad/frontend/src/App.js:83 | When exactly one book carries the id, just that book goes and the others keep their order. |
| ClientServer.SubmittedPayloadIsAccepted | 01-uvodni-hodina/motivacni-priklad/backend/app/routes.py:37-46 | Every payload the form sends passes `add_book`'s validation. The row built from it has the trimmed title and author as strings, the ISBN and year of the form (or null), and no NULL in a required column. |
| ClientServer.ServedId | 01-uvodni-hodina/motivacni-priklad/backend/app/models.py:36 | A served dictionary carries its row's key under "id", which is what the client's delete filter compares. |
| ClientServer.ListingIsShown | 01-uvodni-hodina/motivacni-priklad/backend/app/routes.py:18-20 | A fresh listing shows exactly the server's rows. |
| ClientServer.ClientDeleteMirrorsServer | 01-uvodni-hodina/motivacni-priklad/frontend/src/App.js:83 | If the screen shows exactly the server's rows, then after a successful delete the filtered screen shows exactly the rows the server kept. |

## Left out

- Flask and SQLAlchemy plumbing:
  - HTTP parsing;
  - the 415 answer for a wrong content type;
  - request bodies that are JSON but not objects (lists, strings, numbers);
  - `jsonify`, logging and `app.run`;
  - application setup: `create_app`, CORS, dotenv and `db.create_all`.
  These are framework calls. A body is `Option<Object>` over scalar JSON values only: nested arrays and objects and floating-point numbers are not modelled.
- BookRoutes.BookTable.GetBook, UpdateBook and DeleteBook say "not found" without a status code. `get_or_404` raises inside `try ... except Exception`, and whether that surfaces as 404 or as the handler's 500 is framework behaviour outside this model.
- BookRoutes.BookTable.GetBooks and GetBook do not model a failing database read: the 500 answer with `"Internal server error"` at `routes.py:25-27` and `:67-68`.
- BookRoutes: the `"message": str(e)` member of the error bodies is left out, because the exception text comes from the database driver.
- BookRoutes.DictsInSomeOrder does not fix the listing's order, because `Book.query.all()` has none.
- BookModel.Book stores each of its four non-key columns as any JSON value. Only a refusal of a wrong-typed value by the database is folded into `accepted`. A database that converts such a value instead (SQLite's column affinity stores `"1965"` in the integer column as 1965, and `42` in a text column as `"42"`) is not modelled: `BookRoutes.NewRow`, `BookRoutes.Merge` and the answers of `AddBook` and `UpdateBook` carry the value as sent, where the source's `to_dict()` after the commit (`routes.py:49-52`, `:95-96`) reloads the converted value.
- BookRoutes.BookTable.AddBook does not model a missing body or one that fails to parse. `request.get_json()` at `routes.py:34` is called without `silent=True`, so the framework raises inside the `try` of `routes.py:33`, and `except Exception` answers 500 "Failed to add book" (`routes.py:55-57`). A wrong content type raises in the same place.
- ItemsApi.Store.CreateItem and UpdateItem do not model a body that fails to parse. `request.json` (`app.py:46`, `:73`) then aborts with the framework's own 400 text, not with `MissingNameText`.
- BookRoutes.BookTable.AddBook takes the id the database assigns as a parameter. Auto-increment is not modelled, so a reused id shows up as a failed commit.
- LibraryApp.Reply carries the already parsed list. An exception from `response.json()` counts as `Threw`, and a body that is not a list of objects is not modelled.
- LibraryApp.App does not model races between handlers whose requests overlap. Each method models one handler's resumption after its `await`. The interleavings are whatever order the methods are called in.
- LibraryApp does not model `console.error`, `alert`, `window.confirm` (its answer is a parameter) or the rendering.
- The project leaves out the other repository files:
  - `BookList.js`, whose `'-'` placeholder is display only;
  - `index.js`;
  - the browser-enforced input attributes of the form;
  - the SQLAlchemy demo script `ukazka.py`;
  - the DOM, fetch, JavaScript and TypeScript teaching scripts.
  None of them is part of the services' logic.
- JsText.ParseInt treats the result as an unbounded integer. It does not model the rounding of very long digit runs to a double, and it writes `-0` as 0; both are falsy under `|| null`.
- LibraryApp.HasId compares JSON values. A JavaScript `undefined` id is not modelled.
