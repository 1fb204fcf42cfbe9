# Library catalogue: verified model of the book store and `escapeHtml`

This project models two parts of a small library-catalogue web application in Dafny.

**The book store behind `/api/books` (`server.js`).** The server keeps an array of
book records `{id, title, author, year, isbn}` and a counter `nextId`. It starts
with three seeded books and `nextId = 4`. Five route handlers run over that state:
list, get by id, create, update and delete. Each handler runs to completion before
the next starts. So the store is the class `BookStore.Store`, with fields `books: seq<Book>`
and `nextId: int`, and each handler is one method of it. Each method returns a
`Response` whose constructor is the status code the route sends:

- `Ok` is 200.
- `Created` is 201.
- `BadRequest` is 400, "Title and author are required".
- `NotFound` is 404, "Book not found".

Request-body fields are raw JavaScript values (`Field`). `Truthy` is JavaScript
truthiness, and it decides two things:

- the presence check on `title` and `author`;
- the normalisation of `year` (`null` when falsy, else `parseInt(year)`) and of
  `isbn` (`''` when falsy, else kept as given).

`parseInt` is the runtime's parser. The model does not fix it: it is a function
`Field -> Option<int>` handed to the store's constructor, where `None` is NaN.
NaN equals no id. A path id is looked up as `parseInt(Str(id))`.

The store invariant (`Invariant` plus `Store.Valid`) has three parts:

- ids are pairwise distinct;
- every id lies in `[1, nextId)` and belongs to the ghost set `issued` of ids ever handed out;
- every record is normalised.

The constructor establishes it and create, update and delete preserve it. A new
id is never in `issued`, and delete does not shrink `issued`. So a deleted id is
never issued again.

**`escapeHtml` (`public/app.js`).** A global replace of the class `[&<>"']`
through a five-entry table of HTML entities. It is modelled as a per-character
recursive function. The proofs cover several properties:

- the output holds no `<`, `>`, `"` or `'`;
- it is at least as long as the input;
- it equals the input exactly when none of the five characters occurs;
- escaping distributes over concatenation (the `/g` flag);
- every `&` in the output opens one of the five entities;
- decoding the entities left to right recovers the input.

Ids are integers from the `nextId` counter. A stored `year` can also be the
NaN that `parseInt` returns on junk input.

Files: `wrappers.dfy` (the `Option` type), `book_store.dfy` (module `BookStore`),
`html_escape.dfy` (module `HtmlEscape`).

## Model

| member | source | states |
|---|---|---|
| `BookStore.NormaliseYear` | server.js:52 | the stored year is null exactly when the body's year is falsy; for a truthy year it is the integer `parseInt` gives, or NaN when `parseInt` gives none |
| `BookStore.NormaliseIsbn` | server.js:53 | a truthy isbn is kept as given; otherwise the stored isbn is the empty string |
| `BookStore.FromBody` | server.js:48-54 | the record carries the given id, the body's title and author, and the normalised year and isbn; with title and author present it satisfies the stored-record invariant |
| `BookStore.Position` | server.js:33 | the lookup index is -1 when no record has the parsed id (NaN matches none), else the first record with that id |
| `BookStore.FindIndex` | server.js:62 | the linear `findIndex` search returns the first matching index or -1, and agrees with `Position` |
| `BookStore.Splice` | server.js:93 | removing one record keeps the others in their order, shortens by one, and removes exactly that record (multiset) |
| `BookStore.SeedInvariant` | server.js:16-22 | the three seeded books with `nextId = 4` satisfy the store invariant |
| `BookStore.PositionOfStored` | server.js:32-38 | with distinct ids, looking up a stored record's id finds exactly that record |
| `BookStore.InvariantAfterAppend` | server.js:48-56 | pushing a record with id `nextId` and bumping the counter keeps the invariant, and the new id is found at the end |
| `BookStore.InvariantAfterReplace` | server.js:74-80 | overwriting a record with one of the same id keeps the invariant and the record's position |
| `BookStore.InvariantAfterSplice` | server.js:93 | removing a record keeps the invariant and leaves no record with its id |
| `BookStore.Store.constructor` | server.js:16-22 | the store starts with the three seeded books, `nextId = 4`, ids 1-3 issued, and the invariant holding |
| `BookStore.Store.List` | server.js:27-29 | returns status 200 with every stored record in storage order |
| `BookStore.Store.Get` | server.js:32-38 | 200 with the record whose id equals the parsed path id, or 404 exactly when no record has that id |
| `BookStore.Store.Create` | server.js:41-58 | a falsy title or author gives 400 and changes nothing; otherwise 201 with the new record: id `nextId` never issued before, counter plus one, appended at the end with earlier records untouched, invariant kept |
| `BookStore.Store.Update` | server.js:61-83 | unknown id gives 404 (checked before the fields), then falsy title/author gives 400, neither changes state; otherwise only the found index is overwritten with the normalised body under the same id, length and position kept |
| `BookStore.Store.Delete` | server.js:86-95 | unknown id gives 404 with no change; otherwise returns the removed record with the success message, splices it out keeping the others' order, and the id is no longer found |
| `BookStore.CreateThenGet` | server.js:32-58 | a get with the id of a just-created record returns that same record |
| `BookStore.DeleteThenGone` | server.js:86-95 | after a successful delete, get, update and delete with the same id all answer 404 |
| `HtmlEscape.Entity` | public/app.js:183-189 | each table entry starts with `&`, is at least four characters long and holds no markup character |
| `HtmlEscape.EscapeHtml` | public/app.js:182-191 | the output is at least as long as the input and contains no `<`, `>`, `"` or `'` |
| `HtmlEscape.EscapeConcat` | public/app.js:190 | every occurrence is replaced: escaping `a + b` is escaping `a` followed by escaping `b` |
| `HtmlEscape.EscapeUnchanged` | public/app.js:183-190 | the output equals the input, and has the same length, exactly when none of `& < > " '` occurs |
| `HtmlEscape.UnescapeEscape` | public/app.js:183-190 | decoding the five entities left to right recovers the original text |
| `HtmlEscape.AmpersandBeginsEntity` | public/app.js:183-189 | every `&` in the output begins one of the five entities |

## Left out

- Express setup, the CORS and body-parser middleware, static file serving, the `/` page and `app.listen` (server.js:1-13, 97-105): these are framework and I/O plumbing.
- JSON serialisation and request-body parsing: a body is an already-decoded `Body` of four `Field`s. A stored NaN year would be written as `null` in JSON, and the model does not capture that.
- `Field` covers absent/null, strings, integers and booleans. Objects, arrays and fractional numbers as body values are not modelled.
- The semantics of `parseInt` (partial parses, radix prefixes, number-to-string conversion): a foreign runtime function, taken as an arbitrary `Field -> Option<int>`.
- `BookStore.Store.Get` performs the lookup with the `findIndex` search and then reads the element. The route uses `find`, which yields the same record.
- All of `public/app.js` except `escapeHtml`: fetch calls, DOM rendering, event listeners, alerts and confirms, the edit-mode globals. These are browser I/O.
- `HtmlEscape.EscapeHtml` takes a string. A non-string argument, on which the JavaScript would throw, is not modelled.
- Ids and the `nextId` counter are unbounded integers. In the server they are JavaScript numbers, and `nextId++` stops increasing at 2^53, after which ids would be issued again; the distinct-ids invariant and "a deleted id is never issued again" hold only below that bound.
- Concurrency: the handlers are synchronous, so they are modelled as sequential method calls.
