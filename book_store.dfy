/**
  The in-memory book catalogue of the library server and its five
  `/api/books` handlers (list, get, create, update, delete).

  The store is the array of book records plus the counter that hands out
  ids. Each handler runs to completion before the next one starts, so each
  is one method of the class `Store`. Request bodies arrive already decoded;
  each of their fields is a raw JavaScript value whose truthiness decides
  the validation and the normalisation of `year` and `isbn`.
 */
module BookStore {
  import opened Wrappers

  /** A raw request-body value. `Absent` stands for both `undefined` and `null`. */
  datatype Field = Absent | Str(s: string) | Num(n: int) | Bool(b: bool)

  /** JavaScript truthiness of a raw value: the empty string, 0, false and null are falsy. */
  predicate Truthy(f: Field) {
    match f
    case Absent => false
    case Str(s) => s != ""
    case Num(n) => n != 0
    case Bool(b) => b
  }

  /** The stored `year`: null, the NaN that `parseInt` gives on junk, or an integer. */
  datatype Year = NoYear | NotANumber | Year(value: int)

  datatype Book = Book(id: int, title: Field, author: Field, year: Year, isbn: Field)

  /** The decoded body of a create or update request. */
  datatype Body = Body(title: Field, author: Field, year: Field, isbn: Field)

  datatype Payload = Books(all: seq<Book>) | One(book: Book) | Removed(message: string, book: Book)

  /** A handler's reply; each constructor is one of the status codes the server produces. */
  datatype Response = Ok(body: Payload) | Created(book: Book) | BadRequest(message: string) | NotFound(message: string)
  {
    function Status(): int {
      match this
      case Ok(_) => 200
      case Created(_) => 201
      case BadRequest(_) => 400
      case NotFound(_) => 404
    }
  }

  const NOT_FOUND_MESSAGE := "Book not found"
  const REQUIRED_MESSAGE := "Title and author are required"
  const DELETED_MESSAGE := "Book deleted successfully"

  /** The three records the server starts with. */
  function SeedBooks(): seq<Book> {
    [ Book(1, Str("To Kill a Mockingbird"), Str("Harper Lee"), Year(1960), Str("978-0061120084")),
      Book(2, Str("1984"), Str("George Orwell"), Year(1949), Str("978-0451524935")),
      Book(3, Str("The Great Gatsby"), Str("F. Scott Fitzgerald"), Year(1925), Str("978-0743273565")) ]
  }

  /** Create and update both insist on a truthy title and a truthy author. */
  predicate HasRequiredFields(body: Body) {
    Truthy(body.title) && Truthy(body.author)
  }

  /** A record as create and update store it: required fields truthy, isbn truthy or ''. */
  predicate WellFormed(b: Book) {
    Truthy(b.title) && Truthy(b.author) && (Truthy(b.isbn) || b.isbn == Str(""))
  }

  /** `year ? parseInt(year) : null` */
  function NormaliseYear(year: Field, parseInt: Field -> Option<int>): (y: Year)
    ensures y == NoYear <==> !Truthy(year)
    ensures Truthy(year) && parseInt(year).Some? ==> y == Year(parseInt(year).value)
    ensures Truthy(year) && parseInt(year).None? ==> y == NotANumber
  {
    if !Truthy(year) then NoYear
    else match parseInt(year)
      case None => NotANumber
      case Some(n) => Year(n)
  }

  /** `isbn || ''` */
  function NormaliseIsbn(isbn: Field): (f: Field)
    ensures Truthy(f) || f == Str("")
    ensures Truthy(isbn) ==> f == isbn
    ensures !Truthy(isbn) ==> f == Str("")
  {
    if Truthy(isbn) then isbn else Str("")
  }

  /** The record built from a request body under a given id. */
  function FromBody(id: int, body: Body, parseInt: Field -> Option<int>): (b: Book)
    ensures b.id == id && b.title == body.title && b.author == body.author
    ensures b.year == NormaliseYear(body.year, parseInt) && b.isbn == NormaliseIsbn(body.isbn)
    ensures HasRequiredFields(body) ==> WellFormed(b)
  {
    Book(id, body.title, body.author, NormaliseYear(body.year, parseInt), NormaliseIsbn(body.isbn))
  }

  /** `b.id === parseInt(...)`: NaN (None) equals no id. */
  predicate HasId(b: Book, key: Option<int>) {
    key == Some(b.id)
  }

  /** The index `findIndex` reports: the first record whose id is `key`, or -1. */
  function Position(books: seq<Book>, key: Option<int>): (i: int)
    ensures -1 <= i < |books|
    ensures 0 <= i ==> HasId(books[i], key) && forall j :: 0 <= j < i ==> !HasId(books[j], key)
    ensures i < 0 ==> forall j :: 0 <= j < |books| ==> !HasId(books[j], key)
    decreases |books|
  {
    if books == [] then -1
    else if HasId(books[0], key) then 0
    else
      var i := Position(books[1..], key);
      if i < 0 then -1 else i + 1
  }

  /** `books.findIndex(b => b.id === key)`, the linear search the handlers run. */
  method FindIndex(books: seq<Book>, key: Option<int>) returns (index: int)
    ensures -1 <= index < |books|
    ensures 0 <= index ==> HasId(books[index], key)
    ensures forall j :: 0 <= j < |books| && (index < 0 || j < index) ==> !HasId(books[j], key)
    ensures index == Position(books, key)
  {
    var k := 0;
    while k < |books|
      invariant 0 <= k <= |books|
      invariant forall j :: 0 <= j < k ==> !HasId(books[j], key)
    {
      if HasId(books[k], key) {
        return k;
      }
      k := k + 1;
    }
    return -1;
  }

  /** `books.splice(i, 1)`: the array without its i-th record, the others in their order. */
  function Splice(books: seq<Book>, i: nat): (r: seq<Book>)
    requires i < |books|
    ensures |r| == |books| - 1
    ensures forall j :: 0 <= j < i ==> r[j] == books[j]
    ensures forall j :: i <= j < |r| ==> r[j] == books[j + 1]
    ensures multiset(r) + multiset{books[i]} == multiset(books)
  {
    assert books == books[..i] + [books[i]] + books[i + 1..];
    books[..i] + books[i + 1..]
  }

  predicate DistinctIds(books: seq<Book>) {
    forall i, j :: 0 <= i < j < |books| ==> books[i].id != books[j].id
  }

  /** The store invariant: distinct ids, all issued by the counter, and normalised records. */
  predicate Invariant(books: seq<Book>, nextId: int) {
    && 1 <= nextId
    && DistinctIds(books)
    && (forall j :: 0 <= j < |books| ==> 1 <= books[j].id < nextId)
    && (forall j :: 0 <= j < |books| ==> WellFormed(books[j]))
  }

  lemma SeedInvariant()
    ensures Invariant(SeedBooks(), 4)
  {
  }

  /** With distinct ids, looking up a stored record's id finds exactly that record. */
  lemma PositionOfStored(books: seq<Book>, j: int)
    requires DistinctIds(books)
    requires 0 <= j < |books|
    ensures Position(books, Some(books[j].id)) == j
  {
  }

  /** Pushing a fresh record with id `nextId` keeps the invariant once the counter moves on. */
  lemma InvariantAfterAppend(books: seq<Book>, nextId: int, b: Book)
    requires Invariant(books, nextId)
    requires b.id == nextId && WellFormed(b)
    ensures Invariant(books + [b], nextId + 1)
    ensures Position(books + [b], Some(b.id)) == |books|
  {
    var r := books + [b];
    forall i, j | 0 <= i < j < |r| ensures r[i].id != r[j].id {
      if j == |books| {
        assert r[i] == books[i];
      } else {
        assert r[i] == books[i] && r[j] == books[j];
      }
    }
    PositionOfStored(r, |books|);
  }

  /** Overwriting a record with one of the same id keeps the invariant and its position. */
  lemma InvariantAfterReplace(books: seq<Book>, nextId: int, i: int, b: Book)
    requires Invariant(books, nextId)
    requires 0 <= i < |books| && b.id == books[i].id && WellFormed(b)
    ensures Invariant(books[i := b], nextId)
    ensures Position(books[i := b], Some(b.id)) == i
  {
    var r := books[i := b];
    assert forall j :: 0 <= j < |r| ==> r[j].id == books[j].id;
    PositionOfStored(r, i);
  }

  /** Removing a record keeps the invariant and leaves no record with its id. */
  lemma InvariantAfterSplice(books: seq<Book>, nextId: int, i: nat)
    requires Invariant(books, nextId)
    requires i < |books|
    ensures Invariant(Splice(books, i), nextId)
    ensures Position(Splice(books, i), Some(books[i].id)) == -1
  {
    var r := Splice(books, i);
    forall a, c | 0 <= a < c < |r| ensures r[a].id != r[c].id {
      var a', c' := if a < i then a else a + 1, if c < i then c else c + 1;
      assert r[a] == books[a'] && r[c] == books[c'] && a' < c';
    }
    forall j | 0 <= j < |r| ensures r[j].id != books[i].id {
      var j' := if j < i then j else j + 1;
      assert r[j] == books[j'] && j' != i;
    }
  }

  /**
    The catalogue: the `books` array and the `nextId` counter of the server.
    `parseInt` is the runtime's integer parser, applied to a raw value; the
    model does not fix it and uses only that `None` (NaN) matches no id.
    `issued` records every id the store has ever handed out.
   */
  class Store {
    var books: seq<Book>
    var nextId: int
    ghost var issued: set<int>
    const parseInt: Field -> Option<int>

    ghost predicate Valid()
      reads this
    {
      && Invariant(books, nextId)
      && (forall j :: 0 <= j < |books| ==> books[j].id in issued)
      && (forall k :: k in issued ==> k < nextId)
    }

    constructor (parseInt: Field -> Option<int>)
      ensures Valid()
      ensures books == SeedBooks() && nextId == 4 && issued == {1, 2, 3}
      ensures this.parseInt == parseInt
    {
      this.parseInt := parseInt;
      books := SeedBooks();
      nextId := 4;
      issued := {1, 2, 3};
      SeedInvariant();
    }

    /** GET /api/books */
    method List() returns (r: Response)
      ensures r == Ok(Books(books))
      ensures r.Status() == 200
    {
      r := Ok(Books(books));
    }

    /** GET /api/books/:id */
    method Get(id: string) returns (r: Response)
      ensures var i := Position(books, parseInt(Str(id)));
              r == if i < 0 then NotFound(NOT_FOUND_MESSAGE) else Ok(One(books[i]))
      ensures r.Ok? || r.NotFound?
      ensures r.Ok? ==> r.body.One? && r.body.book in books && parseInt(Str(id)) == Some(r.body.book.id)
      ensures r.NotFound? <==> forall j :: 0 <= j < |books| ==> !HasId(books[j], parseInt(Str(id)))
    {
      var i := FindIndex(books, parseInt(Str(id)));
      if i == -1 {
        return NotFound(NOT_FOUND_MESSAGE);
      }
      r := Ok(One(books[i]));
    }

    /** POST /api/books */
    method Create(body: Body) returns (r: Response)
      requires Valid()
      modifies this
      ensures Valid()
      ensures !HasRequiredFields(body) ==>
        r == BadRequest(REQUIRED_MESSAGE) && books == old(books) && nextId == old(nextId) && issued == old(issued)
      ensures HasRequiredFields(body) ==>
        && r == Created(FromBody(old(nextId), body, parseInt))
        && books == old(books) + [r.book]
        && nextId == old(nextId) + 1
        && issued == old(issued) + {r.book.id}
        && r.book.id !in old(issued)
        && Position(books, Some(r.book.id)) == |books| - 1
    {
      if !HasRequiredFields(body) {
        return BadRequest(REQUIRED_MESSAGE);
      }
      var book := FromBody(nextId, body, parseInt);
      InvariantAfterAppend(books, nextId, book);
      nextId := nextId + 1;
      books := books + [book];
      issued := issued + {book.id};
      r := Created(book);
    }

    /** PUT /api/books/:id — existence is checked before the required fields. */
    method Update(id: string, body: Body) returns (r: Response)
      requires Valid()
      modifies this
      ensures Valid()
      ensures nextId == old(nextId) && issued == old(issued)
      ensures var key := parseInt(Str(id));
              var i := Position(old(books), key);
              if i < 0 then
                r == NotFound(NOT_FOUND_MESSAGE) && books == old(books)
              else if !HasRequiredFields(body) then
                r == BadRequest(REQUIRED_MESSAGE) && books == old(books)
              else
                && books == old(books)[i := FromBody(old(books)[i].id, body, parseInt)]
                && r == Ok(One(books[i]))
                && Position(books, key) == i
    {
      var key := parseInt(Str(id));
      var i := FindIndex(books, key);
      if i == -1 {
        return NotFound(NOT_FOUND_MESSAGE);
      }
      if !HasRequiredFields(body) {
        return BadRequest(REQUIRED_MESSAGE);
      }
      var book := FromBody(key.value, body, parseInt);
      InvariantAfterReplace(books, nextId, i, book);
      books := books[i := book];
      r := Ok(One(books[i]));
    }

    /** DELETE /api/books/:id */
    method Delete(id: string) returns (r: Response)
      requires Valid()
      modifies this
      ensures Valid()
      ensures nextId == old(nextId) && issued == old(issued)
      ensures var key := parseInt(Str(id));
              var i := Position(old(books), key);
              if i < 0 then
                r == NotFound(NOT_FOUND_MESSAGE) && books == old(books)
              else
                && r == Ok(Removed(DELETED_MESSAGE, old(books)[i]))
                && books == Splice(old(books), i)
                && Position(books, key) == -1
    {
      var key := parseInt(Str(id));
      var i := FindIndex(books, key);
      if i == -1 {
        return NotFound(NOT_FOUND_MESSAGE);
      }
      var deleted := books[i];
      InvariantAfterSplice(books, nextId, i);
      books := Splice(books, i);
      r := Ok(Removed(DELETED_MESSAGE, deleted));
    }
  }

  /** A record just created is what a get with its id returns. */
  method CreateThenGet(store: Store, body: Body, path: string) returns (created: Response, got: Response)
    requires store.Valid() && HasRequiredFields(body)
    requires store.parseInt(Str(path)) == Some(store.nextId)
    modifies store
    ensures store.Valid()
    ensures created == Created(FromBody(old(store.nextId), body, store.parseInt))
    ensures got == Ok(One(created.book))
    ensures store.books == old(store.books) + [created.book]
    ensures Position(store.books, store.parseInt(Str(path))) == |old(store.books)|
  {
    created := store.Create(body);
    got := store.Get(path);
  }

  /** Once a delete succeeds, get, update and delete with the same id all answer 404. */
  method DeleteThenGone(store: Store, path: string, body: Body)
      returns (deleted: Response, got: Response, updated: Response, again: Response)
    requires store.Valid()
    modifies store
    ensures store.Valid()
    ensures var i := Position(old(store.books), store.parseInt(Str(path)));
            0 <= i ==> deleted == Ok(Removed(DELETED_MESSAGE, old(store.books)[i]))
    ensures deleted.Ok? ==> |store.books| == |old(store.books)| - 1
    ensures deleted.Ok? ==> && got == NotFound(NOT_FOUND_MESSAGE)
                            && updated == NotFound(NOT_FOUND_MESSAGE)
                            && again == NotFound(NOT_FOUND_MESSAGE)
  {
    deleted := store.Delete(path);
    got := store.Get(path);
    updated := store.Update(path, body);
    again := store.Delete(path);
  }

  /**
    The catalogue's life cycle from a fresh server: create a book, read it
    back, fail to update it without a title, give it a year, delete it, and
    find it gone. The new record gets id 4; `path` is any path parameter
    that parses to 4.
   */
  method Lifecycle(parseInt: Field -> Option<int>, path: string)
    requires parseInt(Str(path)) == Some(4)
    requires parseInt(Str("1965")) == Some(1965)
  {
    var store := new Store(parseInt);
    var created, got := CreateThenGet(store, Body(Str("Dune"), Str("Herbert"), Absent, Absent), path);
    assert created.book == Book(4, Str("Dune"), Str("Herbert"), NoYear, Str(""));
    assert got.Status() == 200;

    var missing := store.Update(path, Body(Absent, Str("Herbert"), Absent, Absent));
    assert missing.Status() == 400;
    assert Position(store.books, parseInt(Str(path))) == 3;

    var updated := store.Update(path, Body(Str("Dune"), Str("Herbert"), Str("1965"), Absent));
    assert updated == Ok(One(Book(4, Str("Dune"), Str("Herbert"), Year(1965), Str(""))));

    var deleted, gone, _, _ := DeleteThenGone(store, path, Body(Str("Dune"), Str("Herbert"), Absent, Absent));
    assert deleted == Ok(Removed(DELETED_MESSAGE, updated.body.book));
    assert gone.Status() == 404;
  }
}
