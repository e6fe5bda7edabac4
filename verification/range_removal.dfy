/**
 * The deletion loop of the remove handler exactly as the Go code runs it. The loop
 * ranges over the ORIGINAL slice header (length n) while each match reassigns the
 * package variable to `append(books[:i], books[i+1:]...)`, which shifts the tail one
 * slot left inside the same backing array. The loop therefore keeps reading the
 * shifted backing array, and a later match can slice past the shortened length.
 *
 * The backing array is modelled as a sequence of length n and the live slice as its
 * first `len` slots. A panic does not undo the reassignments made before it: the
 * router's recovery middleware answers the request with status 500, and the package
 * variable keeps the slice as it stood when the panic happened.
 */
module RangeRemoval {
  import opened Books
  import opened Repository

  /** End of the scan: the backing array, the live length and the last record deleted;
      or the runtime panic of an out-of-range slice expression, with the backing array
      and live length at that moment. */
  datatype Scan =
    | Scanned(arr: seq<Book>, len: nat, deleted: Option<Book>)
    | SlicePanic(arr: seq<Book>, len: nat)

  /** Outcome of the whole handler: a completed step, or the panic together with the
      catalogue the package variable holds afterwards. */
  datatype Outcome = Completed(step: Step) | Panicked(books: seq<Book>)

  /** `append(books[:i], books[i+1:]...)` on a slice of length `len` over `arr`: the
      live slots after `i` move one to the left in place and every slot from `len - 1`
      on keeps its old contents. */
  function SliceDelete(arr: seq<Book>, len: nat, i: nat): (r: seq<Book>)
    requires i < len <= |arr|
    ensures |r| == |arr|
    ensures r[..len - 1] == arr[..i] + arr[i + 1..len]
    ensures forall k :: 0 <= k < i ==> r[k] == arr[k]
    ensures forall k :: i <= k < len - 1 ==> r[k] == arr[k + 1]
    ensures forall k :: len - 1 <= k < |arr| ==> r[k] == arr[k]
  {
    arr[..i] + arr[i + 1..len] + arr[len - 1..]
  }

  /** The range loop from iteration `i` on. `books[i+1:]` needs `i + 1 <= len`. */
  function ScanDelete(arr: seq<Book>, len: nat, i: nat, id: string, deleted: Option<Book>): (r: Scan)
    requires len <= |arr|
    ensures |r.arr| == |arr| && r.len <= len
    ensures r.SlicePanic? && len == |arr| ==> r.len < len
    ensures (forall k :: i <= k < |arr| ==> arr[k].id != id) ==> r == Scanned(arr, len, deleted)
    ensures r.Scanned? && r.deleted != deleted ==> r.deleted.Some? && r.deleted.value.id == id
    ensures r.Scanned? && r.deleted.None? ==> r.arr == arr && r.len == len
    ensures r.Scanned? && r.deleted.None? ==> forall k :: i <= k < |arr| ==> arr[k].id != id
    decreases |arr| - i
  {
    if i >= |arr| then Scanned(arr, len, deleted)
    else if arr[i].id != id then ScanDelete(arr, len, i + 1, id, deleted)
    else if len < i + 1 then SlicePanic(arr, len)
    else ScanDelete(SliceDelete(arr, len, i), len - 1, i + 1, id, Some(arr[i]))
  }

  /** The remove handler as written. A panic can only follow a deletion, so it leaves a
      shorter catalogue behind. */
  function RemoveAsWritten(books: seq<Book>, query: Option<string>): (r: Outcome)
    ensures query.None? ==> r == Completed(Step(books, Err(BadRequest)))
    ensures r.Completed? ==> (r.step.result == Err(NotFound) <==> query.Some? && !HasId(books, query.value))
    ensures r.Completed? && r.step.result == Err(NotFound) ==> r.step.books == books
    ensures r.Completed? && r.step.result.Ok? ==> query.Some? && r.step.result.value.id == query.value
    ensures r.Panicked? ==> query.Some? && HasId(books, query.value) && |r.books| < |books|
  {
    match query
    case None => Completed(Step(books, Err(BadRequest)))
    case Some(id) =>
      match ScanDelete(books, |books|, 0, id, None)
      case SlicePanic(arr, len) => Panicked(arr[..len])
      case Scanned(arr, len, None) => Completed(Step(books, Err(NotFound)))
      case Scanned(arr, len, Some(b)) => Completed(Step(arr[..len], Ok(b)))
  }

  /** An iteration whose record does not carry `id` only advances the loop. */
  lemma ScanSkips(arr: seq<Book>, len: nat, i: nat, id: string, deleted: Option<Book>)
    requires len <= |arr| && i < |arr| && arr[i].id != id
    ensures ScanDelete(arr, len, i, id, deleted) == ScanDelete(arr, len, i + 1, id, deleted)
  {
  }

  /** Before the first match the loop only advances. */
  lemma {:induction false} ScanToFirstMatch(books: seq<Book>, i: nat, id: string, p: nat)
    requires p < |books| && books[p].id == id && i <= p
    requires forall j :: i <= j < p ==> books[j].id != id
    ensures ScanDelete(books, |books|, i, id, None) == ScanDelete(books, |books|, p, id, None)
    decreases p - i
  {
    if i < p {
      ScanSkips(books, |books|, i, id, None);
      ScanToFirstMatch(books, i + 1, id, p);
    }
  }

  /** When at most one record carries the queried id (other ids may repeat), the loop as
      written deletes that record, never panics, and agrees with first-match removal. */
  lemma AsWrittenAgreesForUniqueId(books: seq<Book>, query: Option<string>)
    requires query.Some? ==> AtMostOnce(books, query.value)
    ensures RemoveAsWritten(books, query) == Completed(Remove(books, query))
  {
    if query.Some? {
      var id := query.value;
      match IndexOf(books, id)
      case None =>
      case Some(p) =>
        ScanToFirstMatch(books, 0, id, p);
        var arr := SliceDelete(books, |books|, p);
        assert ScanDelete(books, |books|, p, id, None) ==
          ScanDelete(arr, |books| - 1, p + 1, id, Some(books[p]));
        forall k | p + 1 <= k < |arr|
          ensures arr[k].id != id
        {
          if k < |books| - 1 {
            assert arr[k] == books[k + 1];
          } else {
            assert arr[k] == books[k];
          }
        }
    }
  }

  /** Inserting a second record with id "3" after the seed and then removing "3" makes
      the loop slice `books[4:]` of a slice of length 3: a runtime panic. The first "3" is
      already gone by then, so the catalogue left behind is the one first-match removal
      yields, but the client gets no record back. */
  lemma DuplicateIdPanics(b: Book)
    requires b.id == "3"
    ensures RemoveAsWritten(Seed() + [b], Some("3")) == Panicked(Seed()[..2] + [b])
    ensures Seed()[..2] + [b] == Remove(Seed() + [b], Some("3")).books
  {
    var s := Seed() + [b];
    var a := SliceDelete(s, 4, 2);
    assert a[3].id == "3";
    assert s[0].id == "1" && s[1].id == "2" && s[2].id == "3";
    assert FirstMatch(s, "3", 2);
    calc {
      ScanDelete(s, 4, 0, "3", None);
      ScanDelete(s, 4, 2, "3", None);
      ScanDelete(a, 3, 3, "3", Some(s[2]));
      SlicePanic(a, 3);
    }
    assert a[..3] == Seed()[..2] + [b];
  }

  /** With two records of the same id split by another one, the loop deletes BOTH
      (the second after it has been shifted into the slot it is about to read) and
      returns the later one, where first-match removal keeps the later one. */
  lemma DuplicateIdsDeleteTwo(first: Book, x: Book, second: Book, y: Book)
    requires first.id == "3" && second.id == "3" && x.id != "3" && y.id != "3"
    ensures RemoveAsWritten([first, x, second, y], Some("3")) == Completed(Step([x, y], Ok(second)))
    ensures Remove([first, x, second, y], Some("3")) == Step([x, second, y], Ok(first))
  {
    var s := [first, x, second, y];
    var a1 := SliceDelete(s, 4, 0);
    assert a1 == [x, second, y, y];
    var a2 := SliceDelete(a1, 3, 1);
    assert a2 == [x, y, y, y];
    calc {
      ScanDelete(s, 4, 0, "3", None);
      ScanDelete(a1, 3, 1, "3", Some(first));
      ScanDelete(a2, 2, 2, "3", Some(second));
      Scanned(a2, 2, Some(second));
    }
    assert IndexOf(s, "3") == Some(0);
    assert s[..0] + s[1..] == [x, second, y];
  }
}
