/**
 * The in-memory book repository: every request handler of the service reads or
 * rewrites one ordered sequence of records. Each operation here is a pure function
 * from the current sequence (and the request's parameters) to the next sequence and
 * either a record or an error kind.
 */
module Repository {
  import opened Books

  /** A request parameter that may be absent (the `id` query parameter). */
  datatype Option<T> = None | Some(value: T)

  /** The error kinds a repository operation can signal. */
  datatype Error = NotFound | Unavailable | BadRequest

  datatype Result<T> = Ok(value: T) | Err(error: Error)

  /** The state after an operation together with its outcome. */
  datatype Step = Step(books: seq<Book>, result: Result<Book>)

  /** `after` is `before` with only the quantity of record `i` moved by `delta`. */
  predicate Adjusted(before: seq<Book>, after: seq<Book>, i: int, delta: int)
  {
    && |after| == |before|
    && 0 <= i < |before|
    && after[i] == before[i].(quantity := before[i].quantity + delta)
    && forall j :: 0 <= j < |before| && j != i ==> after[j] == before[j]
  }

  /** Linear search from position `k` for the first record carrying `id`. */
  function IndexFrom(books: seq<Book>, id: string, k: nat): (r: Option<nat>)
    requires k <= |books|
    ensures r.Some? ==> k <= r.value < |books| && books[r.value].id == id
    ensures r.Some? ==> forall j :: k <= j < r.value ==> books[j].id != id
    ensures r.None? ==> forall j :: k <= j < |books| ==> books[j].id != id
    decreases |books| - k
  {
    if k == |books| then None
    else if books[k].id == id then Some(k)
    else IndexFrom(books, id, k + 1)
  }

  /** Position of the first record carrying `id`, if any. */
  function IndexOf(books: seq<Book>, id: string): (r: Option<nat>)
    ensures r.Some? <==> HasId(books, id)
    ensures r.Some? ==> FirstMatch(books, id, r.value)
  {
    IndexFrom(books, id, 0)
  }

  /** Every record, in insertion order. */
  function List(books: seq<Book>): (all: seq<Book>)
  {
    books
  }

  /** Appends `book` unconditionally (no id check) and echoes it back. */
  function Insert(books: seq<Book>, book: Book): (r: Step)
    ensures |r.books| == |books| + 1
    ensures forall j :: 0 <= j < |books| ==> r.books[j] == books[j]
    ensures r.books[|books|] == book
    ensures r.result == Ok(book)
  {
    Step(books + [book], Ok(book))
  }

  /** The first record carrying `id`, or `NotFound`. */
  function FindById(books: seq<Book>, id: string): (r: Result<Book>)
    ensures r.Err? <==> !HasId(books, id)
    ensures r.Err? ==> r.error == NotFound
    ensures r.Ok? ==> exists i :: FirstMatch(books, id, i) && books[i] == r.value
  {
    match IndexOf(books, id)
    case None => Err(NotFound)
    case Some(i) => Ok(books[i])
  }

  /** Takes one copy of the first record carrying the queried id off the shelf. */
  function Checkout(books: seq<Book>, query: Option<string>): (r: Step)
    ensures r.result == Err(BadRequest) <==> query.None?
    ensures r.result == Err(NotFound) <==> query.Some? && !HasId(books, query.value)
    ensures r.result == Err(Unavailable) <==>
      query.Some? && exists i :: FirstMatch(books, query.value, i) && books[i].quantity <= 0
    ensures r.result.Err? ==> r.books == books
    ensures r.result.Ok? ==> query.Some? && exists i ::
      && FirstMatch(books, query.value, i)
      && books[i].quantity > 0
      && Adjusted(books, r.books, i, -1)
      && r.result.value == r.books[i]
  {
    match query
    case None => Step(books, Err(BadRequest))
    case Some(id) =>
      match IndexOf(books, id)
      case None => Step(books, Err(NotFound))
      case Some(i) =>
        if books[i].quantity <= 0 then Step(books, Err(Unavailable))
        else
          var b := books[i].(quantity := books[i].quantity - 1);
          Step(books[i := b], Ok(b))
  }

  /** Puts one copy of the first record carrying the queried id back; no upper bound. */
  function Return(books: seq<Book>, query: Option<string>): (r: Step)
    ensures r.result == Err(BadRequest) <==> query.None?
    ensures r.result == Err(NotFound) <==> query.Some? && !HasId(books, query.value)
    ensures r.result != Err(Unavailable)
    ensures r.result.Err? ==> r.books == books
    ensures r.result.Ok? ==> query.Some? && exists i ::
      && FirstMatch(books, query.value, i)
      && Adjusted(books, r.books, i, 1)
      && r.result.value == r.books[i]
  {
    match query
    case None => Step(books, Err(BadRequest))
    case Some(id) =>
      match IndexOf(books, id)
      case None => Step(books, Err(NotFound))
      case Some(i) =>
        var b := books[i].(quantity := books[i].quantity + 1);
        Step(books[i := b], Ok(b))
  }

  /** Deletes the first record carrying the queried id and returns it. */
  function Remove(books: seq<Book>, query: Option<string>): (r: Step)
    ensures r.result == Err(BadRequest) <==> query.None?
    ensures r.result == Err(NotFound) <==> query.Some? && !HasId(books, query.value)
    ensures r.result != Err(Unavailable)
    ensures r.result.Err? ==> r.books == books
    ensures r.result.Ok? ==> query.Some? && exists i ::
      && FirstMatch(books, query.value, i)
      && r.books == books[..i] + books[i + 1..]
      && r.result.value == books[i]
  {
    match query
    case None => Step(books, Err(BadRequest))
    case Some(id) =>
      match IndexOf(books, id)
      case None => Step(books, Err(NotFound))
      case Some(i) => Step(books[..i] + books[i + 1..], Ok(books[i]))
  }
}
