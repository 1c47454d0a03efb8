/**
  The book table: rows keyed by id, with a unique index on Isbn and an
  identity counter for new ids. Each save either commits or leaves the
  table exactly as it was.
 */
module Store {
  import opened Wrappers
  import opened Books

  /** The unique index on Isbn: no two stored books share an ISBN. */
  ghost predicate IsbnUnique(m: map<int, Book>) {
    forall j, k :: j in m && k in m && j != k ==> m[j].isbn != m[k].isbn
  }

  /** A stored book other than the one under `owner` already uses `isbn`. */
  predicate IsbnTaken(m: map<int, Book>, isbn: string, owner: int) {
    exists k :: k in m && k != owner && m[k].isbn == isbn
  }

  /** Writing a book under `owner` keeps the index intact exactly when no other row holds its ISBN. */
  lemma {:induction false} WriteKeepsIsbnUnique(m: map<int, Book>, owner: int, b: Book)
    requires IsbnUnique(m)
    ensures IsbnUnique(m[owner := b]) <==> !IsbnTaken(m, b.isbn, owner)
  {
    if IsbnTaken(m, b.isbn, owner) {
      var k :| k in m && k != owner && m[k].isbn == b.isbn;
      assert m[owner := b][k].isbn == m[owner := b][owner].isbn;
    }
  }

  /** b is the row stored under its own id. */
  predicate IsRow(m: map<int, Book>, b: Book) {
    b.id in m && m[b.id] == b
  }

  /** The stored books with an id below n, in ascending id order. */
  function RowsBelow(m: map<int, Book>, n: int): (r: seq<Book>)
    requires forall k :: k in m ==> 0 <= k && m[k].id == k
    ensures forall b :: b in r <==> IsRow(m, b) && b.id < n
    ensures forall i, j :: 0 <= i < j < |r| ==> r[i].id < r[j].id
    decreases n
  {
    if n <= 0 then [] else RowsBelow(m, n - 1) + (if n - 1 in m then [m[n - 1]] else [])
  }

  /** A DbUpdateException raised for reasons outside this model, with its inner exception's message. */
  datatype Fault = Fault(inner: Option<string>)

  /** What SaveChanges did with a pending change. */
  datatype SaveResult =
    | Saved
    | DuplicateIsbn              // the unique index on Isbn rejected the row
    | NoSuchRow                  // an update or delete matched no row: DbUpdateConcurrencyException
    | Failed(inner: Option<string>)

  /** The database's message for a violation of the unique index. */
  const UniqueIndexMessage: string := "UNIQUE constraint failed: Books.Isbn"

  /** The inner exception message the failed save carries, if any. */
  function InnerMessage(r: SaveResult): Option<string> {
    match r
    case DuplicateIsbn => Some(UniqueIndexMessage)
    case Failed(inner) => inner
    case _ => None
  }

  class BookStore {
    var books: map<int, Book>
    var nextId: int

    /** Every row sits under its own positive id below the counter, and the ISBN index holds. */
    ghost predicate Valid()
      reads this
    {
      && 1 <= nextId
      && (forall k :: k in books ==> 1 <= k < nextId && books[k].id == k)
      && IsbnUnique(books)
    }

    constructor ()
      ensures Valid() && books == map[] && nextId == 1
    {
      books := map[];
      nextId := 1;
    }

    /** BookExists: some stored book carries this id. */
    function Exists(id: int): (r: bool)
      reads this
      requires Valid()
      ensures r <==> exists k :: k in books && books[k].id == id
    {
      id in books
    }

    /** FindAsync: the stored book with this id, if any. */
    function Find(id: int): (r: Option<Book>)
      reads this
      requires Valid()
      ensures r.Some? <==> Exists(id)
      ensures r.Some? ==> IsRow(books, r.value) && r.value.id == id
    {
      if id in books then Some(books[id]) else None
    }

    /** The table scan: every stored book once, in ascending id order. */
    function Rows(): (r: seq<Book>)
      reads this
      requires Valid()
      ensures forall b :: b in r <==> IsRow(books, b)
      ensures forall k :: k in books ==> books[k] in r
      ensures forall i, j :: 0 <= i < j < |r| ==> r[i].id < r[j].id
    {
      RowsBelow(books, nextId)
    }

    /** Add followed by SaveChanges: insert the book under a fresh id. */
    method Add(b: Book, fault: Option<Fault>) returns (r: SaveResult, id: int)
      requires Valid()
      modifies this
      ensures Valid()
      ensures fault.Some? ==> r == Failed(fault.value.inner) && unchanged(this)
      ensures fault.None? && IsbnTaken(old(books), b.isbn, old(nextId)) ==>
        r == DuplicateIsbn && unchanged(this)
      ensures fault.None? && !IsbnTaken(old(books), b.isbn, old(nextId)) ==>
        && r == Saved
        && id == old(nextId) && id !in old(books)
        && books == old(books)[id := b.(id := id)]
        && nextId == old(nextId) + 1
    {
      id := nextId;
      if fault.Some? {
        r := Failed(fault.value.inner);
      } else if IsbnTaken(books, b.isbn, id) {
        r := DuplicateIsbn;
      } else {
        WriteKeepsIsbnUnique(books, id, b.(id := id));
        books := books[id := b.(id := id)];
        nextId := nextId + 1;
        r := Saved;
      }
    }

    /**
      Update followed by SaveChanges: overwrite every column of the row with
      the book's id. A book whose key still holds the default 0 is tracked
      as new, so it is inserted under a fresh id as `Add` does.
     */
    method Update(b: Book, fault: Option<Fault>) returns (r: SaveResult)
      requires Valid()
      modifies this
      ensures Valid()
      ensures fault.Some? ==> r == Failed(fault.value.inner) && unchanged(this)
      ensures fault.None? && b.id == 0 && IsbnTaken(old(books), b.isbn, old(nextId)) ==>
        r == DuplicateIsbn && unchanged(this)
      ensures fault.None? && b.id == 0 && !IsbnTaken(old(books), b.isbn, old(nextId)) ==>
        && r == Saved
        && old(nextId) !in old(books)
        && books == old(books)[old(nextId) := b.(id := old(nextId))]
        && nextId == old(nextId) + 1
      ensures fault.None? && b.id != 0 && b.id !in old(books) ==> r == NoSuchRow && unchanged(this)
      ensures fault.None? && b.id in old(books) && IsbnTaken(old(books), b.isbn, b.id) ==>
        r == DuplicateIsbn && unchanged(this)
      ensures fault.None? && b.id in old(books) && !IsbnTaken(old(books), b.isbn, b.id) ==>
        r == Saved && books == old(books)[b.id := b] && nextId == old(nextId)
    {
      if fault.Some? {
        r := Failed(fault.value.inner);
      } else if b.id == 0 {
        var id;
        r, id := Add(b, None);
      } else if b.id !in books {
        r := NoSuchRow;
      } else if IsbnTaken(books, b.isbn, b.id) {
        r := DuplicateIsbn;
      } else {
        WriteKeepsIsbnUnique(books, b.id, b);
        books := books[b.id := b];
        r := Saved;
      }
    }

    /** Remove followed by SaveChanges: delete the row with this id. */
    method Remove(id: int, fault: Option<Fault>) returns (r: SaveResult)
      requires Valid()
      modifies this
      ensures Valid()
      ensures fault.Some? ==> r == Failed(fault.value.inner) && unchanged(this)
      ensures fault.None? && id !in old(books) ==> r == NoSuchRow && unchanged(this)
      ensures fault.None? && id in old(books) ==>
        r == Saved && books == old(books) - {id} && nextId == old(nextId)
    {
      if fault.Some? {
        r := Failed(fault.value.inner);
      } else if id !in books {
        r := NoSuchRow;
      } else {
        books := books - {id};
        r := Saved;
      }
    }
  }
}
