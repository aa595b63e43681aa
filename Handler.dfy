/**
 * The catalogue's five request handlers over its shared, ordered `books` array: add, list,
 * get by id, update by id and delete by id. Add, update and delete change the array in place
 * and are methods of `Store`; list and get only read it and are functions of its contents.
 */
module Handler {
  import opened Wrappers
  import opened JsText
  import opened ArrayOps
  import opened Books

  /** What `Number(x)` makes of a query parameter: a finite number, or one of NaN, +Infinity and
      -Infinity, none of which is strictly equal to 0 or 1. */
  datatype NumberValue = Finite(value: real) | NonFinite

  /** The query of a list request; every parameter may be absent. */
  datatype Query = Query(name: Option<string>, reading: Option<NumberValue>, finished: Option<NumberValue>)

  /** The one filter a list request applies. */
  datatype Filter =
    | ByName(pattern: string)
    | ByReading(wanted: NumberValue)
    | ByFinished(wanted: NumberValue)
    | Unfiltered

  /** What a list request reports of each book. */
  datatype Summary = Summary(id: string, name: string, publisher: string)

  /** The query names books: its `name` is present and not blank. */
  predicate NamesBooks(q: Query) {
    q.name.Some? && !IsBlank(q.name.value)
  }

  /** The filter of a list request, by fixed precedence: name, then reading, then finished,
      then none. */
  function ChosenFilter(q: Query): (f: Filter)
    ensures f.ByName? <==> NamesBooks(q)
    ensures f.ByName? ==> f.pattern == q.name.value
    ensures f.ByReading? <==> !NamesBooks(q) && q.reading.Some?
    ensures f.ByReading? ==> f.wanted == q.reading.value
    ensures f.ByFinished? <==> !NamesBooks(q) && q.reading.None? && q.finished.Some?
    ensures f.ByFinished? ==> f.wanted == q.finished.value
    ensures f.Unfiltered? <==> !NamesBooks(q) && q.reading.None? && q.finished.None?
  {
    var named := q.name.Some? && |Trim(q.name.value)| > 0;
    assert named <==> NamesBooks(q) by {
      if q.name.Some? {
        TrimEmptyIffBlank(q.name.value);
      }
    }
    if named then ByName(q.name.value)
    else if q.reading.Some? then ByReading(q.reading.value)
    else if q.finished.Some? then ByFinished(q.finished.value)
    else Unfiltered
  }

  /** `Number(flag)`: 1 for true, 0 for false. */
  function FlagNumber(flag: bool): real {
    if flag then 1.0 else 0.0
  }

  /** Whether `b` passes filter `f`. The name filter is a case-insensitive literal substring test. */
  predicate Admits(f: Filter, b: Book) {
    match f
    case ByName(pattern) => Contains(Lower(b.name), Lower(pattern))
    case ByReading(wanted) => wanted == Finite(FlagNumber(b.reading))
    case ByFinished(wanted) => wanted == Finite(FlagNumber(b.finished))
    case Unfiltered => true
  }

  /** The callback a list request hands to `filter`. */
  function AdmittedBy(f: Filter): Book -> bool {
    (b: Book) => Admits(f, b)
  }

  /** The callback that selects records by id. */
  function HasId(id: string): Book -> bool {
    (b: Book) => b.id == id
  }

  /** The `{id, name, publisher}` object a listing reports for a record. */
  function Summarize(b: Book): Summary {
    Summary(b.id, b.name, b.publisher)
  }

  /** The `map` that reduces each record to its summary. */
  function Project(books: seq<Book>): seq<Summary> {
    seq(|books|, i requires 0 <= i < |books| => Summarize(books[i]))
  }

  /** getAllBookHandler: the summaries of the books the chosen filter admits, in store order. */
  function ListBooks(books: seq<Book>, q: Query): (r: seq<Summary>)
    ensures |r| <= |books|
  {
    var f := ChosenFilter(q);
    if f.Unfiltered? then Project(books) else Project(Keep(books, AdmittedBy(f)))
  }

  /** getBookByIdHandler: the first record with the id, or not-found. */
  function GetBook(books: seq<Book>, id: string): (r: Result<Book, Error>)
    ensures r.Failure? <==> Unused(books, id)
    ensures r.Failure? ==> r.error == NotFound
    ensures r.Success? ==> var i := FindIndex(books, HasId(id));
                           0 <= i < |books| && r.value == books[i] && r.value.id == id
  {
    var found := Keep(books, HasId(id));
    KeepFirst(books, HasId(id));
    if |found| > 0 then Success(found[0]) else Failure(NotFound)
  }

  /** The shared, ordered array of records the handlers work on. */
  class Store {
    var books: seq<Book>

    /** The store starts empty. */
    constructor ()
      ensures books == []
    {
      books := [];
    }

    /** addBookHandler: validate, build the record, append it, confirm it is present. */
    method Add(p: Payload, id: string, now: string) returns (r: Result<string, Error>)
      modifies this
      ensures Validate(p).Some? ==> r == Failure(Validation(Validate(p).value)) && books == old(books)
      ensures Validate(p).None? ==> r == Success(id) && books == old(books) + [NewBook(p, id, now)]
    {
      if p.name.None? {
        return Failure(Validation(MissingName));
      }
      if p.readPage > p.pageCount {
        return Failure(Validation(ReadPageOverPageCount));
      }
      var book := NewBook(p, id, now);
      books := books + [book];
      KeepFirst(books, HasId(id));
      var isSuccess := |Keep(books, HasId(id))| > 0;
      if isSuccess {
        r := Success(id);
      } else {
        r := Failure(Internal);
      }
    }

    /** editBookByIdHandler: find the record, validate, overwrite it at its index. */
    method Update(id: string, p: Payload, now: string) returns (r: Result<(), Error>)
      modifies this
      ensures FindIndex(old(books), HasId(id)) == -1 ==> r == Failure(NotFound) && books == old(books)
      ensures FindIndex(old(books), HasId(id)) != -1 && Validate(p).Some? ==>
                r == Failure(Validation(Validate(p).value)) && books == old(books)
      ensures FindIndex(old(books), HasId(id)) != -1 && Validate(p).None? ==>
                var i := FindIndex(old(books), HasId(id));
                r == Success(()) && books == old(books)[i := Revised(old(books)[i], p, now)]
    {
      var index := FindIndex(books, HasId(id));
      if index != -1 {
        if p.name.None? {
          return Failure(Validation(MissingName));
        }
        if p.readPage > p.pageCount {
          return Failure(Validation(ReadPageOverPageCount));
        }
        books := books[index := Revised(books[index], p, now)];
        return Success(());
      }
      return Failure(NotFound);
    }

    /** deleteBookByIdHandler: find the record and splice it out. */
    method Delete(id: string) returns (r: Result<(), Error>)
      modifies this
      ensures FindIndex(old(books), HasId(id)) == -1 ==> r == Failure(NotFound) && books == old(books)
      ensures FindIndex(old(books), HasId(id)) != -1 ==>
                var i := FindIndex(old(books), HasId(id));
                r == Success(()) && books == old(books)[..i] + old(books)[i + 1..]
    {
      var index := FindIndex(books, HasId(id));
      if index != -1 {
        books := books[..index] + books[index + 1..];
        return Success(());
      }
      return Failure(NotFound);
    }
  }
}
