/**
 * The book record of the inventory service and the catalogue it starts with.
 * A catalogue is an ordered sequence of records; listing order is insertion order.
 */
module Books {

  /** One inventory record. `quantity` is the number of copies on the shelf. */
  datatype Book = Book(id: string, title: string, author: string, quantity: int)

  /** The record constructor of the service: every field is taken as given. */
  function NewBook(id: string, title: string, author: string, quantity: int): (b: Book)
    ensures b.id == id && b.title == title && b.author == author && b.quantity == quantity
  {
    Book(id, title, author, quantity)
  }

  /** The catalogue the process starts with. */
  function Seed(): (s: seq<Book>)
  {
    [ NewBook("1", "In Search of a Lost Time", "Marcel Proust", 2),
      NewBook("2", "The Great Gatsby", "F. Scott Fitzgerald", 5),
      NewBook("3", "War and Peace", "Leo Tolstoy", 6) ]
  }

  /** Some record of `books` carries `id`. */
  predicate HasId(books: seq<Book>, id: string)
  {
    exists i :: 0 <= i < |books| && books[i].id == id
  }

  /** `i` is the position of the first record of `books` that carries `id`. */
  predicate FirstMatch(books: seq<Book>, id: string, i: int)
  {
    && 0 <= i < |books|
    && books[i].id == id
    && forall j :: 0 <= j < i ==> books[j].id != id
  }

  /** No two records of `books` share an id. */
  predicate UniqueIds(books: seq<Book>)
  {
    forall i, j :: 0 <= i < j < |books| ==> books[i].id != books[j].id
  }

  /** At most one record of `books` carries `id`. */
  predicate AtMostOnce(books: seq<Book>, id: string)
  {
    forall i, j :: 0 <= i < j < |books| && books[i].id == id ==> books[j].id != id
  }

  /** No record of `books` has a negative quantity. */
  predicate NonNegative(books: seq<Book>)
  {
    forall i :: 0 <= i < |books| ==> books[i].quantity >= 0
  }

  /** The seed holds exactly the records "1", "2", "3" with quantities 2, 5, 6, in that
      order; their ids are distinct and no quantity is negative. */
  lemma SeedShape()
    ensures |Seed()| == 3
    ensures Seed()[0].id == "1" && Seed()[0].quantity == 2
    ensures Seed()[1].id == "2" && Seed()[1].quantity == 5
    ensures Seed()[2].id == "3" && Seed()[2].quantity == 6
    ensures UniqueIds(Seed()) && NonNegative(Seed())
  {
  }
}
