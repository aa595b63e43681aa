# Bookshelf catalogue handlers — a verified Dafny model

This project models `src/handler.js`, the request handlers of a small bookshelf API. The
handlers keep book records in one shared array that stays in memory. The array holds records in
insertion order and has five operations:

- **add** validates a payload and appends a new record, with its derived `finished` flag and its timestamps.
- **list** applies at most one filter (name, then reading, then finished) and reports each match as `{id, name, publisher}`.
- **get** returns the first record with a given id.
- **update** overwrites a record in place.
- **delete** splices one record out.

Layout:

- `Wrappers.dfy`: `Option` and `Result`.
- `JsText.dfy`: the JavaScript string behaviour the list filter relies on: `trim`, `includes` and ASCII `toLowerCase`.
- `ArrayOps.dfy`: `Array.prototype.filter` (`Keep`) and `findIndex` (`FindIndex`), generic, with the lemma that `filter` selects exactly the satisfying elements in order.
- `Books.dfy`: the `Book` record, the request `Payload`, the error kinds and the validation rules. It also holds the records that add builds (`NewBook`) and that update writes (`Revised`).
- `Handler.dfy`: the handlers. The shared array is the `books` field of class `Store`. Add, update and delete are methods that reassign it. List and get only read it, so they are functions of its contents.
- `Properties.dfy`: lemmas that relate operations to each other (add then get, update then get, delete then get, id uniqueness) and describe the list filters.

Two behaviours of the code are easy to miss, and the model keeps both:

- A payload is refused only when `name` is absent. An empty string is a valid name, so the payload field is an `Option<string>`.
- Update does not recompute `finished`. The spread keeps the old value, and the overwritten fields leave it out. `Properties.UpdateCanBreakConsistency` exhibits an update that leaves `finished` disagreeing with the page counts, which add never does.

## Model

| member | source | states |
|---|---|---|
| `JsText.TrimStart` | src/handler.js:74 | the result is a suffix of the input, starts with a non-whitespace character or is empty, and all that was removed is whitespace |
| `JsText.TrimEnd` | src/handler.js:74 | the result is a prefix of the input, ends with a non-whitespace character or is empty, and all that was removed is whitespace |
| `JsText.Trim` | src/handler.js:74 | `trim()`: the result is a contiguous piece of the input whose surroundings are all whitespace and whose ends are not whitespace; its emptiness is characterised by `JsText.TrimEmptyIffBlank` |
| `JsText.TrimEmptyIffBlank` | src/handler.js:74 | `name.trim().length > 0` holds exactly when the name has a character that is not whitespace |
| `JsText.ContainsLowered` | src/handler.js:75-78 | a literal occurrence of the query in a name is still found after both are lower-cased |
| `JsText.Lower` | src/handler.js:75 | `toLowerCase()` on ASCII letters: same length, each upper-case ASCII letter becomes the matching lower-case letter (code point plus 32), every other character unchanged; `JsText.ContainsLowered` and `JsText.LoweredOccursIffCaseless` relate it to substring search |
| `JsText.LoweredOccursIffCaseless` | src/handler.js:75 | the lower-cased name holds the lower-cased query at a position exactly when the query occurs there ignoring ASCII case |
| `JsText.Contains` | src/handler.js:75 | definition of `includes`: some position holds the needle verbatim; its meaning for the name filter is given by `Properties.NameFilterMeaning` and `JsText.ContainsLowered` |
| `ArrayOps.Keep` | src/handler.js:94 | `filter` returns no more elements than it was given, and each one is from the input and satisfies the callback |
| `ArrayOps.FindIndex` | src/handler.js:165 | `findIndex` is -1 exactly when no element satisfies the callback; otherwise it is the first index that does |
| `ArrayOps.KeepSelects` | src/handler.js:109 | `filter` keeps exactly the satisfying elements, each once, in their original order (witnessed by an increasing list of positions) |
| `ArrayOps.KeepFirst` | src/handler.js:140 | the head of a `filter` result exists exactly when `findIndex` finds something, and it is the element at that index |
| `Books.Validate` | src/handler.js:9-25 | a payload is accepted exactly when the name is present and `readPage <= pageCount`; a missing name is reported before a page-count violation |
| `Books.NewBook` | src/handler.js:27-45 | the new record carries the supplied id and the eight payload fields, `finished == (pageCount == readPage)`, and `insertedAt == updatedAt` |
| `Books.Revised` | src/handler.js:186-197 | the rewritten record takes the eight payload fields and the new `updatedAt`, and keeps `id`, `insertedAt` and `finished` from the old one |
| `Handler.ChosenFilter` | src/handler.js:72-123 | exactly one filter is chosen, by precedence: name only if present and non-blank, else reading if present, else finished if present, else none |
| `Handler.Admits` | src/handler.js:76-79 | definition of the filter callbacks (lines 76-79, 94 and 109): the name test is a case-insensitive literal substring test in place of the regular expression; its meaning is given by `Properties.FlagFilterMeaning`, `Properties.NameFilterMeaning`, `Properties.NameFilterFindsLiteral` and `Properties.NameFilterExample` |
| `Handler.FlagNumber` | src/handler.js:94 | definition of `Number(book.reading)` and `Number(book.finished)` (lines 94 and 109): 1 for true, 0 for false; `Properties.FlagFilterMeaning` states the filters through it |
| `Handler.HasId` | src/handler.js:140 | definition of the callback `book.id === bookId` (lines 140, 165 and 217); the ensures of `Handler.GetBook`, `Handler.Store.Update` and `Handler.Store.Delete` give it its meaning through `ArrayOps.FindIndex` |
| `Handler.Summarize` | src/handler.js:83-87 | definition of the `{id, name, publisher}` object built for each listed book; used through `Handler.Project` |
| `Handler.Project` | src/handler.js:126-130 | definition of the `map` to summaries (also lines 83-87, 98-102 and 113-117); `Properties.ListSelects` and `Properties.ListUnfilteredIsAll` state what a listing holds through it |
| `Handler.ListBooks` | src/handler.js:71-135 | a listing is never longer than the store |
| `Handler.GetBook` | src/handler.js:137-157 | not-found exactly when no record has the id; otherwise the record at the first index holding that id |
| `Handler.Store.constructor` | src/handler.js:2 | the shared array starts empty |
| `Handler.Store.Add` | src/handler.js:4-69 | a refused payload returns its validation error and leaves the store unchanged; an accepted one returns the id and appends exactly the new record, so the presence check always passes and the internal-error branch is unreachable |
| `Handler.Store.Update` | src/handler.js:159-213 | an unknown id gives not-found before any validation; a refused payload gives its validation error; both leave the store unchanged; otherwise only the record at the first matching index is replaced by its revision, and the length stays the same |
| `Handler.Store.Delete` | src/handler.js:215-235 | an unknown id gives not-found and leaves the store unchanged; otherwise exactly the first record with the id is removed and the others keep their order |
| `Properties.ListSelects` | src/handler.js:76-130 | a listing summarises exactly the records the chosen filter admits, each once, in store order |
| `Properties.ListUnfilteredIsAll` | src/handler.js:123-134 | with no filter every record is listed, in order |
| `Properties.FlagFilterMeaning` | src/handler.js:93-122 | the reading and finished filters admit a book exactly when the flag, read as 1 or 0, equals the query's number |
| `Properties.NonFlagQueryListsNothing` | src/handler.js:93-122 | a reading or finished query whose number is neither 0 nor 1 (NaN included) lists nothing |
| `Properties.NameFilterMeaning` | src/handler.js:75-78 | the name filter admits a book exactly when the query occurs in its name ignoring ASCII case |
| `Properties.NameFilterFindsLiteral` | src/handler.js:74-79 | a name query admits every book whose name contains the query verbatim |
| `Properties.NameFilterExample` | src/handler.js:74-79 | the query "the" admits "The Hobbit" and "Into the Wild" and rejects "Dune" (one helper lemma per book) |
| `Properties.AddThenGet` | src/handler.js:27-47 | a record added under a fresh id is exactly what get returns for that id |
| `Properties.AddKeepsIdsUnique` | src/handler.js:27-47 | adding under a fresh id keeps ids unique |
| `Properties.UpdateThenGet` | src/handler.js:186-197 | after a successful update, get returns the revised record |
| `Properties.UpdateKeepsIdsUnique` | src/handler.js:186-197 | an update keeps ids unique, because the id is carried over |
| `Properties.UpdateCanBreakConsistency` | src/handler.js:186-197 | some accepted update leaves `finished` disagreeing with `pageCount == readPage` |
| `Properties.DeleteThenGet` | src/handler.js:217-220 | when ids are unique, get reports not-found for an id that was just deleted |
| `Properties.DeleteKeepsIdsUnique` | src/handler.js:217-220 | a delete keeps ids unique |

## Left out

- HTTP plumbing is not modelled: payload, parameter and query extraction, response bodies, messages and status codes. Results carry an error kind instead (`Validation`, `NotFound`, `Internal`), which stand for 400, 404 and 500.
- Id generation (`nanoid(16)`) and the clock (`new Date().toISOString()`) are parameters the caller supplies. Add does not check that the id is fresh, and neither does the source. The uniqueness lemmas assume a fresh id, which is what the random generator provides.
- Whether `updatedAt` grows from one update to the next is not modelled, because timestamps are opaque strings supplied by the caller.
- The `./books` module is not part of this model. The store starts empty.
- The name filter is modelled as a case-insensitive literal substring test. The source builds a regular expression from the query. The two agree only when the query has no regular-expression metacharacters. A query that is not a valid pattern throws as soon as the store holds at least one record, because the pattern is built inside the `filter` callback.
- Lower-casing covers ASCII letters only. Unicode case folding is not modelled.
- `Number(...)` of a query parameter is not modelled. The query carries the number already (`Finite(value)`, or `NonFinite` for NaN and the infinities). For example, an empty `reading=` parameter is `Finite(0.0)`.
- The fields `name`, `year`, `author`, `summary`, `publisher`, `pageCount`, `readPage` and `reading` are given fixed types: `name` is a string when present, `author`, `summary` and `publisher` are strings, and the others are integers and a boolean. The code stores whatever the payload holds, for example `undefined` for an absent `publisher`, which then appears in listings. The code accepts any `name` that is not `undefined`, such as `null` or a number. Once such a record is stored, the discarded expression at src/handler.js:75 (`bookName.name.toLowerCase()`) throws on every later non-blank name query. JavaScript's loose comparisons on missing or non-numeric values are not modelled either.
- The not-found branch of get (src/handler.js:156) calls `status` on hapi's response toolkit, which has no such method. The code therefore throws there, and the request fails with a server error rather than a not-found answer. The model returns `Failure(NotFound)` instead.
- Concurrent requests are not modelled. Each operation runs to completion on its own.
