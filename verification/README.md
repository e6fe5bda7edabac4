# Book repository model

A Dafny model of the in-memory book repository of a small inventory HTTP service
(`cmd/main.go`). The service keeps one package-level slice of book records, seeded with
three books. Its handlers list the records, append one, look one up by id, check a copy
out, return a copy, and remove a record. Here the slice is a `seq<Book>`. Each handler's
repository logic is a pure function from the current sequence and the request's
parameters to the next sequence plus either a record or an error kind (`NotFound`,
`Unavailable`, `BadRequest`). A missing `id` query parameter is an `Option<string>` that
is `None`.

Modules:
- `Books`: the record, its constructor, the seed, and the predicates `HasId`,
  `FirstMatch`, `UniqueIds` and `NonNegative`.
- `Repository`: the operations `List`, `Insert`, `FindById`, `Checkout`, `Return` and
  `Remove`, plus the linear search `IndexOf` they share.
- `RepositoryProperties`: lemmas that relate operations. They cover round trips, what a
  later lookup sees, removal as filtering, and the invariants the operations keep.
- `RangeRemoval`: the deletion loop of the remove handler exactly as Go runs it. It
  models the range over the original slice header and the in-place `append`. It is
  proved equal to `Repository.Remove` when the queried id occurs at most once.
- `Handlers`: the six handlers. Each runs one operation and maps the outcome to the
  source's status codes (200, 201, 400, 404, 422) and messages, with concrete scenarios.
  The remove handler here runs first-match `Repository.Remove`, so it matches the source
  exactly when the queried id occurs at most once.

`Repository.Remove` deletes the first record that carries the id. The source's loop
keeps scanning after a deletion. When at most one record carries the queried id the two
agree
(`RangeRemoval.AsWrittenAgreesForUniqueId`). With duplicate ids the loop can delete
two records, or panic after its first deletion (see Findings). A panic keeps the
shortened catalogue; the router's recovery middleware answers it with status 500.

## Model

| member | source | states |
|---|---|---|
| Books.NewBook | cmd/main.go:16-18 | the constructed record carries exactly the given id, title, author and quantity |
| Books.SeedShape | cmd/main.go:20-24 | the initial catalogue is exactly the records "1", "2", "3" with quantities 2, 5, 6, in that order; ids distinct, quantities non-negative |
| Repository.IndexOf | cmd/main.go:54-58 | the linear search finds a position iff some record carries the id, and the position found is the first such record |
| Repository.FindById | cmd/main.go:53-61 | lookup fails with NotFound iff no record has the id; otherwise it returns the record at the first matching position |
| Repository.Insert | cmd/main.go:30-39 | the record is appended at the end with no id check: length grows by one, earlier records unchanged and in order, the echoed result is the input, never an error |
| Repository.Checkout | cmd/main.go:63-85 | BadRequest iff the id is missing, NotFound iff no record has it, Unavailable iff the first match has quantity <= 0; every error leaves the state unchanged; success lowers only the first match's quantity by one and returns the updated record |
| Repository.Return | cmd/main.go:87-104 | BadRequest iff the id is missing, NotFound iff absent, never Unavailable; errors leave the state unchanged; success raises only the first match's quantity by one, with no upper bound, and returns the updated record |
| Repository.Remove | cmd/main.go:106-131 | BadRequest iff the id is missing, NotFound iff absent, errors leave the state unchanged; success deletes the first match, keeps the other records in order, and returns the deleted record |
| RepositoryProperties.ListAfterInserts | cmd/main.go:26-39 | listing after a series of inserts gives the earlier records followed by the inserted ones, in insertion order |
| RepositoryProperties.ListAfterSeedInserts | cmd/main.go:20-39 | after N inserts into the seed, the listing has N + 3 records: the three seeded ones, then the inserted ones in order |
| RepositoryProperties.FindAfterInsert | cmd/main.go:37-61 | after an insert, an id that was already present still finds its earlier record (the new one is shadowed); a new id finds the inserted record; any other id stays NotFound |
| RepositoryProperties.InsertThenRemove | cmd/main.go:106-131 | removing a freshly inserted id restores the earlier catalogue and returns the inserted record |
| RepositoryProperties.CheckoutThenReturn | cmd/main.go:78-104 | a successful checkout followed by a return of the same id restores the original sequence, and the return yields the original record |
| RepositoryProperties.ReturnThenCheckout | cmd/main.go:78-104 | a return followed by a checkout of the same id restores the original sequence when the quantity was non-negative |
| RepositoryProperties.FindAfterCheckout | cmd/main.go:53-85 | a checkout changes the stored record: a later lookup of that id returns the record the checkout returned |
| RepositoryProperties.FindAfterRemove | cmd/main.go:106-131 | when at most one record carries an id, a lookup of that id after removing it fails with NotFound |
| RepositoryProperties.RemoveIsFilter | cmd/main.go:117-123 | when at most one record carries the id, removing it gives the catalogue with the records of that id filtered out, order kept; one record shorter when the id was present |
| RepositoryProperties.OperationsKeepNonNegative | cmd/main.go:78-83 | checkout, return and remove keep every quantity non-negative; an insert keeps it so iff the inserted quantity is non-negative |
| RepositoryProperties.OperationsKeepUniqueIds | cmd/main.go:30-131 | checkout, return and remove keep ids unique; an insert keeps them unique iff the inserted id is new |
| RangeRemoval.SliceDelete | cmd/main.go:121 | `append(books[:i], books[i+1:]...)` moves the live slots after i one to the left in the same backing array and leaves slots from len-1 on as they were |
| RangeRemoval.ScanDelete | cmd/main.go:117-123 | the range loop keeps the backing array's size and never grows the live length; if nothing is deleted, the array and the length are unchanged; a deleted record carries the id |
| RangeRemoval.RemoveAsWritten | cmd/main.go:106-131 | the remove handler as written: BadRequest when the id is missing; NotFound iff the id is absent, leaving the state unchanged; a returned record carries the id; a panic happens only for a present id and leaves a strictly shorter catalogue behind |
| RangeRemoval.AsWrittenAgreesForUniqueId | cmd/main.go:117-123 | when at most one record carries the queried id (other ids may repeat), the loop as written never panics and agrees with first-match removal |
| RangeRemoval.DuplicateIdPanics | cmd/main.go:121 | after any second record with id "3" is appended to the seed, removing "3" slices past the shortened length and panics; the catalogue left behind is the seed's first two records plus the appended one, the same as first-match removal |
| RangeRemoval.DuplicateIdsDeleteTwo | cmd/main.go:117-123 | on `[3a, x, 3b, y]`, removing "3" as written deletes both 3a and 3b and returns 3b, while first-match removal deletes only 3a and returns it |
| Handlers.Handle | cmd/main.go:26-131 | list answers 200 with all records; insert answers 201 with the record; with remove answered by first-match removal: the status is one of 200, 201, 400, 404, 422; 400 ("Missing id query parameter!") iff a query-taking request lacks the id; 404 ("Book not found!") iff the id is absent; 422 ("Book not available!") iff a checkout finds quantity <= 0; a lookup answers 200 with the first matching record; a 200 checkout or return carries the updated stored record, a 200 remove the deleted one; non-success answers leave the catalogue unchanged; reads never change it |
| Handlers.CheckoutScenario | cmd/main.go:63-104 | on the seed, record "1" checks out to quantities 1 and 0, then is refused with 422; a return brings the quantity back to 1 |
| Handlers.ErrorScenarios | cmd/main.go:41-69 | on the seed, looking up "99" is answered 404 "Book not found!", and a checkout without an id is answered 400 "Missing id query parameter!" |

## Left out

- Routing, path and query extraction, JSON encoding and decoding, and server startup (cmd/main.go:133-142): framework I/O. Requests come in already decoded.
- The insert handler's early return when the body does not decode (cmd/main.go:33-35): the framework's binding answers 400 with an empty body, and the state does not change.
- Concurrent requests: the source has no synchronisation, and the model is sequential.
- Repository.Return: quantities are unbounded `int`s, so the 64-bit wrap-around of Go's `int` on repeated returns is not modelled.
- Repository.FindById: the source returns a pointer into the slice. Here the lookup returns the record, and `Checkout`/`Return` write the updated record back into the sequence.
- Handlers.Handle: DELETE /remove is answered from first-match removal, so the status set and the 200 remove body it states hold for the source only when the queried id occurs at most once (`RangeRemoval.AsWrittenAgreesForUniqueId`). With a repeated id the source may answer 500 after a panic, or delete two records and return the later one. Those cases are modelled only in `RangeRemoval` (`RangeRemoval.DuplicateIdPanics`, `RangeRemoval.DuplicateIdsDeleteTwo`).
- Repository.List has no contract of its own: it returns the state unchanged. Its ordering property is stated by `RepositoryProperties.ListAfterInserts`.
- Remove with duplicate ids in general: the loop as written may then skip a shifted record, or delete several records and return the last one deleted (`RangeRemoval.DuplicateIdsDeleteTwo`). `RangeRemoval` models every case, but the only general properties stated are the unique-id agreement and the facts in `RangeRemoval.RemoveAsWritten`'s contract.

## Findings

| source | as written | input that shows it | evidently intended | confidence | as-written member | corrected member |
|---|---|---|---|---|---|---|
| cmd/main.go:117-123 | the range loop keeps iterating to the original length after `books = append(books[:i], books[i+1:]...)` has shortened the slice; a later match evaluates `books[i+1:]` with `i + 1` past the new length | seed, then POST a record with id "3" (accepted, no id check), then DELETE /remove?id=3: the second match is at i = 3 while the length is 3, so `books[4:]` panics; the first "3" is already deleted, and the client gets status 500 instead of the record | delete the first record with the id and return it | not executed; high | RangeRemoval.DuplicateIdPanics (about RangeRemoval.RemoveAsWritten) | Repository.Remove (with RepositoryProperties.RemoveIsFilter and RangeRemoval.AsWrittenAgreesForUniqueId) |
