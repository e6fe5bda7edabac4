/**
 * Properties that relate several repository operations: round trips, what a later
 * lookup sees, and the catalogue invariants each operation keeps.
 */
module RepositoryProperties {
  import opened Books
  import opened Repository

  /** The catalogue after a series of inserts, one request per record of `added`. */
  function InsertAll(books: seq<Book>, added: seq<Book>): (after: seq<Book>)
    decreases |added|
  {
    if |added| == 0 then books
    else InsertAll(Insert(books, added[0]).books, added[1..])
  }

  /** The records of `books` that do not carry `id`, in order: an independent
      description of what deleting `id` should leave behind. */
  function Without(books: seq<Book>, id: string): (r: seq<Book>)
    decreases |books|
  {
    if |books| == 0 then []
    else (if books[0].id == id then [] else [books[0]]) + Without(books[1..], id)
  }

  /** Two catalogues with the same ids at the same positions answer every lookup
      with the same position. */
  lemma IndexOfSameIds(a: seq<Book>, b: seq<Book>, id: string)
    requires |a| == |b|
    requires forall j :: 0 <= j < |a| ==> a[j].id == b[j].id
    ensures IndexOf(a, id) == IndexOf(b, id)
  {
    if HasId(a, id) {
      var i := IndexOf(a, id).value;
      assert b[i].id == id;
    }
  }

  /** Listing after a series of inserts yields the earlier catalogue followed by the
      inserted records, in insertion order. */
  lemma {:induction false} ListAfterInserts(books: seq<Book>, added: seq<Book>)
    ensures List(InsertAll(books, added)) == books + added
    decreases |added|
  {
    if |added| > 0 {
      ListAfterInserts(books + [added[0]], added[1..]);
      assert books + [added[0]] + added[1..] == books + added;
    }
  }

  /** Listing after N inserts into the seed returns N + 3 records: the three seeded ones
      first, then the inserted ones in order. */
  lemma ListAfterSeedInserts(added: seq<Book>)
    ensures |List(InsertAll(Seed(), added))| == |added| + 3
    ensures List(InsertAll(Seed(), added))[..3] == Seed()
    ensures List(InsertAll(Seed(), added))[3..] == added
  {
    ListAfterInserts(Seed(), added);
  }

  /** A lookup after an insert: an id already present still finds its earlier record
      (the new one is shadowed); otherwise the inserted record is found by its id. */
  lemma FindAfterInsert(books: seq<Book>, book: Book, id: string)
    ensures FindById(Insert(books, book).books, id) ==
      if HasId(books, id) then FindById(books, id)
      else if book.id == id then Ok(book)
      else Err(NotFound)
  {
    var after := Insert(books, book).books;
    if HasId(books, id) {
      var i := IndexOf(books, id).value;
      assert FirstMatch(after, id, i);
    } else if book.id == id {
      assert FirstMatch(after, id, |books|);
    } else {
      assert !HasId(after, id);
    }
  }

  /** Removing a freshly inserted id undoes the insert and hands the record back. */
  lemma InsertThenRemove(books: seq<Book>, book: Book)
    requires !HasId(books, book.id)
    ensures Remove(Insert(books, book).books, Some(book.id)) == Step(books, Ok(book))
  {
    var after := Insert(books, book).books;
    assert FirstMatch(after, book.id, |books|);
    assert after[..|books|] + after[|books| + 1..] == books;
  }

  /** A successful checkout followed by a return of the same id restores the catalogue,
      and the return hands back the record as it was before the checkout. */
  lemma CheckoutThenReturn(books: seq<Book>, id: string)
    requires Checkout(books, Some(id)).result.Ok?
    ensures Return(Checkout(books, Some(id)).books, Some(id)) == Step(books, FindById(books, id))
  {
    var c := Checkout(books, Some(id)).books;
    IndexOfSameIds(books, c, id);
    var i := IndexOf(books, id).value;
    assert c[i := c[i].(quantity := c[i].quantity + 1)] == books;
  }

  /** A return followed by a checkout of the same id restores the catalogue, provided the
      record's quantity was not negative to begin with. */
  lemma ReturnThenCheckout(books: seq<Book>, id: string)
    requires FindById(books, id).Ok? && FindById(books, id).value.quantity >= 0
    ensures Return(books, Some(id)).result.Ok?
    ensures Checkout(Return(books, Some(id)).books, Some(id)) == Step(books, FindById(books, id))
  {
    var r := Return(books, Some(id)).books;
    IndexOfSameIds(books, r, id);
    var i := IndexOf(books, id).value;
    assert r[i := r[i].(quantity := r[i].quantity - 1)] == books;
  }

  /** Changes made by a checkout are seen by the next lookup of the same id. */
  lemma FindAfterCheckout(books: seq<Book>, id: string)
    requires Checkout(books, Some(id)).result.Ok?
    ensures FindById(Checkout(books, Some(id)).books, id) == Checkout(books, Some(id)).result
  {
    IndexOfSameIds(books, Checkout(books, Some(id)).books, id);
  }

  /** When at most one record carries an id, that id can no longer be found once it is
      removed (whether or not other ids repeat). */
  lemma FindAfterRemove(books: seq<Book>, id: string)
    requires AtMostOnce(books, id)
    ensures FindById(Remove(books, Some(id)).books, id) == Err(NotFound)
  {
    var r := Remove(books, Some(id));
    if r.result.Ok? {
      var i := IndexOf(books, id).value;
      forall j | 0 <= j < |r.books|
        ensures r.books[j].id != id
      {
        if j < i {
          assert r.books[j] == books[j];
        } else {
          assert r.books[j] == books[j + 1];
        }
      }
    }
  }

  lemma {:induction false} WithoutConcat(a: seq<Book>, b: seq<Book>, id: string)
    ensures Without(a + b, id) == Without(a, id) + Without(b, id)
    decreases |a|
  {
    if |a| == 0 {
      assert a + b == b;
    } else {
      var head := if a[0].id == id then [] else [a[0]];
      assert (a + b)[0] == a[0];
      assert (a + b)[1..] == a[1..] + b;
      assert Without(a + b, id) == head + Without(a[1..] + b, id);
      WithoutConcat(a[1..], b, id);
      assert head + (Without(a[1..], id) + Without(b, id)) == (head + Without(a[1..], id)) + Without(b, id);
    }
  }

  lemma {:induction false} WithoutAbsent(books: seq<Book>, id: string)
    requires forall j :: 0 <= j < |books| ==> books[j].id != id
    ensures Without(books, id) == books
    decreases |books|
  {
    if |books| > 0 {
      WithoutAbsent(books[1..], id);
    }
  }

  /** Filtering out the only record that carries `id` cuts that one record out. */
  lemma WithoutSingle(books: seq<Book>, id: string, i: nat)
    requires i < |books| && books[i].id == id
    requires forall j :: 0 <= j < |books| && j != i ==> books[j].id != id
    ensures Without(books, id) == books[..i] + books[i + 1..]
  {
    var pre, mid, post := books[..i], books[i..i + 1], books[i + 1..];
    assert books == pre + mid + post;
    WithoutConcat(pre + mid, post, id);
    WithoutConcat(pre, mid, id);
    WithoutAbsent(pre, id);
    assert forall k :: 0 <= k < |post| ==> post[k] == books[i + 1 + k];
    WithoutAbsent(post, id);
    assert Without(mid, id) == [] by {
      assert mid[0].id == id && mid[1..] == [];
    }
  }

  /** When at most one record carries `id`, removing `id` leaves the catalogue with every
      record of that id filtered out, the rest in their original order; if the id was
      present, that is exactly one record fewer. */
  lemma {:induction false} RemoveIsFilter(books: seq<Book>, id: string)
    requires AtMostOnce(books, id)
    ensures Remove(books, Some(id)).books == Without(books, id)
    ensures HasId(books, id) ==> |Remove(books, Some(id)).books| == |books| - 1
  {
    if HasId(books, id) {
      var i := IndexOf(books, id).value;
      assert forall j :: 0 <= j < |books| && j != i ==> books[j].id != id;
      WithoutSingle(books, id, i);
    } else {
      WithoutAbsent(books, id);
    }
  }

  /** Every operation keeps quantities non-negative, an insert provided the inserted
      record's quantity is not negative. */
  lemma OperationsKeepNonNegative(books: seq<Book>, query: Option<string>, book: Book)
    requires NonNegative(books)
    ensures NonNegative(Checkout(books, query).books)
    ensures NonNegative(Return(books, query).books)
    ensures NonNegative(Remove(books, query).books)
    ensures NonNegative(Insert(books, book).books) <==> book.quantity >= 0
  {
    var r := Remove(books, query);
    if r.result.Ok? {
      var i := IndexOf(books, query.value).value;
      assert forall j :: 0 <= j < |r.books| ==> r.books[j] == (if j < i then books[j] else books[j + 1]);
    }
    var ins := Insert(books, book).books;
    assert ins[|books|] == book;
  }

  /** Checkout, return and remove keep ids unique; an insert keeps them unique exactly
      when the inserted id is new. */
  lemma OperationsKeepUniqueIds(books: seq<Book>, query: Option<string>, book: Book)
    requires UniqueIds(books)
    ensures UniqueIds(Checkout(books, query).books)
    ensures UniqueIds(Return(books, query).books)
    ensures UniqueIds(Remove(books, query).books)
    ensures UniqueIds(Insert(books, book).books) <==> !HasId(books, book.id)
  {
    var r := Remove(books, query);
    if r.result.Ok? {
      var i := IndexOf(books, query.value).value;
      assert forall j :: 0 <= j < |r.books| ==> r.books[j] == (if j < i then books[j] else books[j + 1]);
    }
    var ins := Insert(books, book).books;
    if HasId(books, book.id) {
      var k :| 0 <= k < |books| && books[k].id == book.id;
      assert ins[k].id == ins[|books|].id;
    }
  }
}
