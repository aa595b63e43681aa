/** The catalogue's one entity, the book record, with the validation and construction rules
    shared by adding and updating. */
module Books {
  import opened Wrappers

  /** A stored book. `name` is always present: a payload without one is never stored. */
  datatype Book = Book(
    id: string,
    name: string,
    year: int,
    author: string,
    summary: string,
    publisher: string,
    pageCount: int,
    readPage: int,
    finished: bool,
    reading: bool,
    insertedAt: string,
    updatedAt: string)

  /** The request body of add and update. Only `name` may be absent; an empty name is a name. */
  datatype Payload = Payload(
    name: Option<string>,
    year: int,
    author: string,
    summary: string,
    publisher: string,
    pageCount: int,
    readPage: int,
    reading: bool)

  /** Why a payload was refused. */
  datatype Invalid = MissingName | ReadPageOverPageCount

  /** The error kinds of the handlers: a refused payload (400); an unknown id (404 for update and
      delete; get's not-found answer is modelled with the same kind); and the failed presence
      check after an add (500). */
  datatype Error = Validation(reason: Invalid) | NotFound | Internal

  /** The checks add and update run on a payload, in their order: the name first. */
  function Validate(p: Payload): (r: Option<Invalid>)
    ensures r == None <==> p.name.Some? && p.readPage <= p.pageCount
    ensures r == Some(MissingName) <==> p.name.None?
    ensures r == Some(ReadPageOverPageCount) <==> p.name.Some? && p.readPage > p.pageCount
  {
    if p.name.None? then Some(MissingName)
    else if p.readPage > p.pageCount then Some(ReadPageOverPageCount)
    else None
  }

  /** The eight payload fields of `b` are those of `p`. */
  predicate CarriesPayload(b: Book, p: Payload) {
    && p.name == Some(b.name)
    && b.year == p.year
    && b.author == p.author
    && b.summary == p.summary
    && b.publisher == p.publisher
    && b.pageCount == p.pageCount
    && b.readPage == p.readPage
    && b.reading == p.reading
  }

  /** The derived flag agrees with the page counts. */
  predicate Consistent(b: Book) {
    b.finished == (b.pageCount == b.readPage)
  }

  /** The record add stores for a payload, a generated id and the current time. */
  function NewBook(p: Payload, id: string, now: string): (b: Book)
    requires p.name.Some?
    ensures b.id == id && CarriesPayload(b, p)
    ensures Consistent(b)
    ensures b.insertedAt == b.updatedAt == now
  {
    Book(id, p.name.value, p.year, p.author, p.summary, p.publisher, p.pageCount, p.readPage,
         p.pageCount == p.readPage, p.reading, now, now)
  }

  /** The record update writes over `prior`: the spread of the old record with the eight payload
      fields and the time laid over it. `finished` is carried over from `prior`, not recomputed. */
  function Revised(prior: Book, p: Payload, now: string): (b: Book)
    requires p.name.Some?
    ensures CarriesPayload(b, p) && b.updatedAt == now
    ensures b.id == prior.id && b.insertedAt == prior.insertedAt && b.finished == prior.finished
  {
    prior.(name := p.name.value, year := p.year, author := p.author, summary := p.summary,
           publisher := p.publisher, pageCount := p.pageCount, readPage := p.readPage,
           reading := p.reading, updatedAt := now)
  }

  /** No two records of `books` share an id. */
  predicate UniqueIds(books: seq<Book>) {
    forall i, j :: 0 <= i < j < |books| ==> books[i].id != books[j].id
  }

  /** `books` has no record with the id `id`. */
  predicate Unused(books: seq<Book>, id: string) {
    forall j :: 0 <= j < |books| ==> books[j].id != id
  }
}
