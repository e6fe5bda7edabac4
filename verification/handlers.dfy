/**
 * The six request handlers of the service over the repository: which operation each
 * request runs, and the status code and body each outcome is answered with.
 */
module Handlers {
  import opened Books
  import opened Repository

  /** A request, after routing and body decoding. */
  datatype Request =
    | GetBooks
    | GetBook(id: string)
    | PostBook(book: Book)
    | PatchCheckout(query: Option<string>)
    | PatchReturn(query: Option<string>)
    | DeleteRemove(query: Option<string>)

  datatype Body = Records(books: seq<Book>) | Record(book: Book) | Message(text: string)

  datatype Response = Response(status: int, body: Body)

  /** The catalogue after a request together with the response sent. */
  datatype Exchange = Exchange(books: seq<Book>, response: Response)

  const NotFoundMessage := "Book not found!"
  const UnavailableMessage := "Book not available!"
  const MissingIdMessage := "Missing id query parameter!"

  /** Requests that read the `id` query parameter. */
  predicate TakesQuery(req: Request)
  {
    req.PatchCheckout? || req.PatchReturn? || req.DeleteRemove?
  }

  /** The answer to an operation's outcome; `success` is the status of a success. */
  function Answer(result: Result<Book>, success: int): (r: Response)
  {
    match result
    case Ok(b) => Response(success, Record(b))
    case Err(BadRequest) => Response(400, Message(MissingIdMessage))
    case Err(NotFound) => Response(404, Message(NotFoundMessage))
    case Err(Unavailable) => Response(422, Message(UnavailableMessage))
  }

  function Handle(books: seq<Book>, req: Request): (x: Exchange)
    ensures req.GetBooks? ==> x == Exchange(books, Response(200, Records(books)))
    ensures req.PostBook? ==> x.response == Response(201, Record(req.book))
    ensures x.response.status == 400 <==> TakesQuery(req) && req.query.None?
    ensures x.response.status == 404 <==>
      || (req.GetBook? && !HasId(books, req.id))
      || (TakesQuery(req) && req.query.Some? && !HasId(books, req.query.value))
    ensures x.response.status in {200, 201, 400, 404, 422}
    ensures x.response.status == 400 ==> x.response.body == Message(MissingIdMessage)
    ensures x.response.status == 404 ==> x.response.body == Message(NotFoundMessage)
    ensures x.response.status == 422 ==> x.response.body == Message(UnavailableMessage)
    ensures req.GetBook? && HasId(books, req.id) ==>
      x.response == Response(200, Record(FindById(books, req.id).value))
    ensures x.response.status == 200 && TakesQuery(req) ==>
      x.response.body.Record? && x.response.body.book.id == req.query.value
    ensures req.PatchCheckout? || req.PatchReturn? ==> |x.books| == |books|
    ensures x.response.status == 200 && (req.PatchCheckout? || req.PatchReturn?) ==>
      x.response.body == Record(x.books[IndexOf(books, req.query.value).value])
    ensures x.response.status == 200 && req.DeleteRemove? ==>
      x.response.body == Record(FindById(books, req.query.value).value)
    ensures x.response.status == 422 <==>
      req.PatchCheckout? && req.query.Some? &&
      exists i :: FirstMatch(books, req.query.value, i) && books[i].quantity <= 0
    ensures x.response.status != 200 && x.response.status != 201 ==> x.books == books
    ensures x.books != books ==> !req.GetBooks? && !req.GetBook?
  {
    match req
    case GetBooks => Exchange(books, Response(200, Records(List(books))))
    case GetBook(id) => Exchange(books, Answer(FindById(books, id), 200))
    case PostBook(b) =>
      var st := Insert(books, b);
      Exchange(st.books, Answer(st.result, 201))
    case PatchCheckout(q) =>
      var st := Checkout(books, q);
      Exchange(st.books, Answer(st.result, 200))
    case PatchReturn(q) =>
      var st := Return(books, q);
      Exchange(st.books, Answer(st.result, 200))
    case DeleteRemove(q) =>
      var st := Remove(books, q);
      Exchange(st.books, Answer(st.result, 200))
  }

  /** Record "1" of the seed has two copies: two checkouts succeed with quantities 1 and
      0, a third is refused with 422, and a return brings the quantity back to 1. */
  lemma CheckoutScenario()
    ensures
      var x1 := Handle(Seed(), PatchCheckout(Some("1")));
      var x2 := Handle(x1.books, PatchCheckout(Some("1")));
      var x3 := Handle(x2.books, PatchCheckout(Some("1")));
      var x4 := Handle(x3.books, PatchReturn(Some("1")));
      && x1.response == Response(200, Record(Seed()[0].(quantity := 1)))
      && x2.response == Response(200, Record(Seed()[0].(quantity := 0)))
      && x3.response == Response(422, Message(UnavailableMessage)) && x3.books == x2.books
      && x4.response == Response(200, Record(Seed()[0].(quantity := 1)))
      && x4.books == x1.books
  {
    var s := Seed();
    assert IndexOf(s, "1") == Some(0);
    var b1 := s[0].(quantity := 1);
    var b0 := s[0].(quantity := 0);
    assert IndexOf(s[0 := b1], "1") == Some(0);
    assert IndexOf(s[0 := b0], "1") == Some(0);
    assert s[0 := b1][0 := b0] == s[0 := b0];
    assert s[0 := b0][0 := b1] == s[0 := b1];
  }

  /** Asking the seed for the absent id "99" is answered 404 "Book not found!", and a
      checkout without an id query parameter is answered 400 before any lookup. */
  lemma ErrorScenarios()
    ensures Handle(Seed(), GetBook("99")) == Exchange(Seed(), Response(404, Message(NotFoundMessage)))
    ensures Handle(Seed(), PatchCheckout(None)) == Exchange(Seed(), Response(400, Message(MissingIdMessage)))
  {
    assert Seed()[0].id != "99" && Seed()[1].id != "99" && Seed()[2].id != "99";
  }
}
