/**
  BooksController: each action decides, from the request and the stored
  books, what happens to the store and which response the request gets.
  Rendering is reduced to the response kind and the data handed to it.
 */
module Controller {
  import opened Wrappers
  import opened Text
  import opened Books
  import opened Store
  import Listing

  /** What an action answers. */
  datatype Outcome =
    | RedirectToIndex                                     // RedirectToAction(nameof(Index))
    | ListView(list: Listing.PagedList, currentFilter: Option<string>, partial: bool)
    | DetailsView(book: Book)                             // View(book) of one stored book
    | FormView(book: Book, state: ModelState)             // the form again, with its validation errors
    | PartialView(name: string, book: Book)
    | Content(html: string)
    | NotFound
    | Json(status: int, success: bool, summary: Option<string>, fields: Option<map<Field, string>>)
    | ErrorText(status: int, text: string)                // StatusCode(500, "Server Error: ...")
    | StorageError                                        // an exception leaves the action

  const DetailsPartialName: string := "_DetailsPartial"
  const EditFormName: string := "_EditForm"
  const BookNotFoundHtml: string := "<div class='alert alert-danger'>Buch nicht gefunden.</div>"
  const DuplicateIsbnSummary: string := "Ein Buch mit dieser ISBN existiert bereits."
  const IsbnTakenMessage: string := "Diese ISBN ist bereits vergeben."
  const SaveFailedSummary: string := "Datenbankfehler beim Speichern."
  const UpdateFailedSummary: string := "Datenbankfehler beim Aktualisieren."
  const CorrectErrorsSummary: string := "Bitte korrigieren Sie die folgenden Fehler:"
  const IdMissingSummary: string := "Buch-ID fehlt."
  const IdInvalidMessage: string := "Die Buch-ID ist ungültig."
  const BookNotFoundSummary: string := "Buch nicht gefunden."

  /** 200 with success = true. */
  const JsonSuccess: Outcome := Json(200, true, None, None)

  /** 400 naming Isbn as the one field in error. */
  const DuplicateIsbnResponse: Outcome :=
    Json(400, false, Some(DuplicateIsbnSummary), Some(map[IsbnKey := IsbnTakenMessage]))

  /** 400 listing the first error of each invalid field. */
  function InvalidResponse(errors: map<Field, string>): Outcome {
    Json(400, false, Some(CorrectErrorsSummary), Some(errors))
  }

  /** `inner` holds `pattern` somewhere. */
  ghost predicate Mentions(inner: string, pattern: string) {
    exists i :: OccursAt(inner, pattern, i)
  }

  class BooksController {
    const db: BookStore

    constructor (db: BookStore)
      ensures this.db == db
    {
      this.db := db;
    }

    /**
      GET Index: the filtered, title-ordered page of books. `fault` is an
      exception raised by the query; an AJAX request then gets a 500 text,
      any other request sees the exception.
     */
    function Index(searchString: Option<string>, page: Option<int>, ajax: bool, fault: Option<string>): (o: Outcome)
      reads db
      requires db.Valid()
      requires page.None? || 1 <= page.value
      ensures fault.Some? && ajax ==> o == ErrorText(500, "Server Error: " + fault.value)
      ensures fault.Some? && !ajax ==> o == StorageError
      ensures fault.None? ==>
        && o.ListView? && o.partial == ajax && o.currentFilter == searchString
        && o.list.pageNumber == (if page.None? then 1 else page.value)
        && |o.list.items| <= Listing.PageSize
        && Listing.SortedByTitle(o.list.items)
        && (forall b :: b in o.list.items ==> IsRow(db.books, b) && Listing.Selected(b, searchString))
        && o.list == Listing.Index(db.Rows(), searchString, page)
    {
      if fault.Some? then
        if ajax then ErrorText(500, "Server Error: " + fault.value) else StorageError
      else
        ListView(Listing.Index(db.Rows(), searchString, page), searchString, ajax)
    }

    /** GET Details: the book with this id, or NotFound when the id is missing or unknown. */
    function Details(id: Option<int>): (o: Outcome)
      reads db
      requires db.Valid()
      ensures o.NotFound? <==> id.None? || !db.Exists(id.value)
      ensures o.DetailsView? ==> id.Some? && o.book.id == id.value && IsRow(db.books, o.book)
      ensures o.NotFound? || o.DetailsView?
    {
      if id.None? then NotFound
      else
        match db.Find(id.value)
        case None => NotFound
        case Some(book) => DetailsView(book)
    }

    /** GET DetailsPartial: the details fragment, or NotFound. */
    function DetailsPartial(id: int): (o: Outcome)
      reads db
      requires db.Valid()
      ensures o.NotFound? <==> !db.Exists(id)
      ensures o.PartialView? ==> o.name == DetailsPartialName && o.book.id == id && IsRow(db.books, o.book)
      ensures o.NotFound? || o.PartialView?
    {
      match db.Find(id)
      case None => NotFound
      case Some(book) => PartialView(DetailsPartialName, book)
    }

    /** GET EditPartial: the edit form fragment; an unknown id gets an alert fragment, not a 404. */
    function EditPartial(id: int): (o: Outcome)
      reads db
      requires db.Valid()
      ensures o == Content(BookNotFoundHtml) <==> !db.Exists(id)
      ensures o.PartialView? ==> o.name == EditFormName && o.book.id == id && IsRow(db.books, o.book)
      ensures o.Content? || o.PartialView?
    {
      match db.Find(id)
      case None => Content(BookNotFoundHtml)
      case Some(book) => PartialView(EditFormName, book)
    }

    /**
      POST Create: a valid book is added under a fresh id and the browser
      is sent to Index; an invalid one redisplays the form. A failed save
      (a duplicate ISBN included) is not caught.
     */
    method Create(book: Book, fault: Option<Fault>) returns (o: Outcome)
      requires db.Valid()
      modifies db
      ensures db.Valid()
      ensures !IsValid(Validate(book)) ==> o == FormView(book, Validate(book)) && unchanged(db)
      ensures IsValid(Validate(book)) && (fault.Some? || IsbnTaken(old(db.books), book.isbn, old(db.nextId))) ==>
        o == StorageError && unchanged(db)
      ensures IsValid(Validate(book)) && fault.None? && !IsbnTaken(old(db.books), book.isbn, old(db.nextId)) ==>
        && o == RedirectToIndex
        && old(db.nextId) !in old(db.books)
        && db.books == old(db.books)[old(db.nextId) := book.(id := old(db.nextId))]
        && db.nextId == old(db.nextId) + 1
    {
      var state := Validate(book);
      if IsValid(state) {
        var r, id := db.Add(book, fault);
        o := if r.Saved? then RedirectToIndex else StorageError;
      } else {
        o := FormView(book, state);
      }
    }

    /**
      POST Edit: the route id must be the book's id. A valid book replaces
      the stored one; if no row had that id the answer is NotFound. A book
      posted with Id 0 (and route id 0) is inserted as a new row instead.
      Any other failed save is not caught.
     */
    method Edit(id: int, book: Book, fault: Option<Fault>) returns (o: Outcome)
      requires db.Valid()
      modifies db
      ensures db.Valid()
      ensures id != book.id ==> o == NotFound && unchanged(db)
      ensures id == book.id && !IsValid(Validate(book)) ==> o == FormView(book, Validate(book)) && unchanged(db)
      ensures id == book.id && IsValid(Validate(book)) && fault.Some? ==> o == StorageError && unchanged(db)
      ensures id == book.id && IsValid(Validate(book)) && fault.None? && book.id == 0 ==>
        if IsbnTaken(old(db.books), book.isbn, old(db.nextId)) then
          o == StorageError && unchanged(db)
        else
          && o == RedirectToIndex
          && old(db.nextId) !in old(db.books)
          && db.books == old(db.books)[old(db.nextId) := book.(id := old(db.nextId))]
          && db.nextId == old(db.nextId) + 1
      ensures id == book.id && IsValid(Validate(book)) && fault.None? && book.id != 0 && book.id !in old(db.books) ==>
        o == NotFound && unchanged(db)
      ensures id == book.id && IsValid(Validate(book)) && fault.None? && book.id in old(db.books) ==>
        if IsbnTaken(old(db.books), book.isbn, book.id) then
          o == StorageError && unchanged(db)
        else
          o == RedirectToIndex && db.books == old(db.books)[book.id := book] && db.nextId == old(db.nextId)
    {
      if id != book.id {
        return NotFound;
      }
      var state := Validate(book);
      if IsValid(state) {
        var r := db.Update(book, fault);
        match r
        case Saved => o := RedirectToIndex;
        case NoSuchRow => o := if db.Exists(book.id) then StorageError else NotFound;
        case _ => o := StorageError;
      } else {
        o := FormView(book, state);
      }
    }

    /** GET DeleteConfirmed: delete the book if it is there; either way go back to Index. */
    method DeleteConfirmed(id: int, fault: Option<Fault>) returns (o: Outcome)
      requires db.Valid()
      modifies db
      ensures db.Valid()
      ensures id !in old(db.books) ==> o == RedirectToIndex && unchanged(db)
      ensures id in old(db.books) && fault.Some? ==> o == StorageError && unchanged(db)
      ensures id in old(db.books) && fault.None? ==>
        o == RedirectToIndex && db.books == old(db.books) - {id} && db.nextId == old(db.nextId)
      ensures o == RedirectToIndex ==> !db.Exists(id)
    {
      var found := db.Find(id);
      if found.Some? {
        var r := db.Remove(id, fault);
        if !r.Saved? {
          return StorageError;
        }
      }
      o := RedirectToIndex;
    }

    /**
      POST CreateAjax: JSON answers. An invalid book gets 400 with the
      first error of each invalid field; a valid one is added, or the
      failed save is classified: a unique-constraint message gives 400 on
      Isbn, anything else 500.
     */
    method CreateAjax(book: Book, fault: Option<Fault>) returns (o: Outcome)
      requires db.Valid()
      modifies db
      ensures db.Valid()
      ensures !IsValid(Validate(book)) ==> o == InvalidResponse(ErrorMap(Validate(book))) && unchanged(db)
      ensures IsValid(Validate(book)) && fault.Some? ==>
        o == (if IsUniqueConstraintViolation(fault.value.inner) then DuplicateIsbnResponse
              else Json(500, false, Some(SaveFailedSummary), None))
        && unchanged(db)
      ensures IsValid(Validate(book)) && fault.None? && IsbnTaken(old(db.books), book.isbn, old(db.nextId)) ==>
        o == DuplicateIsbnResponse && unchanged(db)
      ensures IsValid(Validate(book)) && fault.None? && !IsbnTaken(old(db.books), book.isbn, old(db.nextId)) ==>
        && o == JsonSuccess
        && old(db.nextId) !in old(db.books)
        && db.books == old(db.books)[old(db.nextId) := book.(id := old(db.nextId))]
        && db.nextId == old(db.nextId) + 1
    {
      var state := Validate(book);
      if IsValid(state) {
        var r, id := db.Add(book, fault);
        if r == DuplicateIsbn {
          DuplicateSignalRecognised();
        }
        if r.Saved? {
          o := JsonSuccess;
        } else if IsUniqueConstraintViolation(InnerMessage(r)) {
          o := DuplicateIsbnResponse;
        } else {
          o := Json(500, false, Some(SaveFailedSummary), None);
        }
        return;
      }
      var errors := ExtractValidationErrors(state);
      o := InvalidResponse(errors);
    }

    /**
      POST EditAjax, checking in this order: a zero id (400 on Id), an
      unknown id (404), validation (400 on the invalid fields), then the
      save, classified like CreateAjax's.
     */
    method EditAjax(book: Book, fault: Option<Fault>) returns (o: Outcome)
      requires db.Valid()
      modifies db
      ensures db.Valid()
      ensures book.id == 0 ==>
        o == Json(400, false, Some(IdMissingSummary), Some(map[IdKey := IdInvalidMessage])) && unchanged(db)
      ensures book.id != 0 && book.id !in old(db.books) ==>
        o == Json(404, false, Some(BookNotFoundSummary), None) && unchanged(db)
      ensures book.id != 0 && book.id in old(db.books) && !IsValid(Validate(book)) ==>
        o == InvalidResponse(ErrorMap(Validate(book))) && unchanged(db)
      ensures book.id != 0 && book.id in old(db.books) && IsValid(Validate(book)) && fault.Some? ==>
        o == (if IsUniqueConstraintViolation(fault.value.inner) then DuplicateIsbnResponse
              else Json(500, false, Some(UpdateFailedSummary), None))
        && unchanged(db)
      ensures book.id != 0 && book.id in old(db.books) && IsValid(Validate(book)) && fault.None? ==>
        if IsbnTaken(old(db.books), book.isbn, book.id) then
          o == DuplicateIsbnResponse && unchanged(db)
        else
          o == JsonSuccess && db.books == old(db.books)[book.id := book] && db.nextId == old(db.nextId)
    {
      if book.id == 0 {
        return Json(400, false, Some(IdMissingSummary), Some(map[IdKey := IdInvalidMessage]));
      }
      if !db.Exists(book.id) {
        return Json(404, false, Some(BookNotFoundSummary), None);
      }
      var state := Validate(book);
      if IsValid(state) {
        var r := db.Update(book, fault);
        if r == DuplicateIsbn {
          DuplicateSignalRecognised();
        }
        if r.Saved? {
          o := JsonSuccess;
        } else if IsUniqueConstraintViolation(InnerMessage(r)) {
          o := DuplicateIsbnResponse;
        } else {
          o := Json(500, false, Some(UpdateFailedSummary), None);
        }
        return;
      }
      var errors := ExtractValidationErrors(state);
      o := InvalidResponse(errors);
    }

    /**
      Whether a failed save broke a unique constraint, judged from the inner
      exception's message alone (case-sensitive); no inner exception means no.
     */
    static function IsUniqueConstraintViolation(inner: Option<string>): (r: bool)
      ensures r <==>
        && inner.Some?
        && (Mentions(inner.value, "UNIQUE") || Mentions(inner.value, "duplicate") || Mentions(inner.value, "verletzt Unique"))
    {
      var message := if inner.Some? then inner.value else "";
      ContainsIff(message, "UNIQUE");
      ContainsIff(message, "duplicate");
      ContainsIff(message, "verletzt Unique");
      Contains(message, "UNIQUE") || Contains(message, "duplicate") || Contains(message, "verletzt Unique")
    }

    /** The first error message of every ModelState entry that has errors, gathered key by key. */
    static method ExtractValidationErrors(state: ModelState) returns (errors: map<Field, string>)
      ensures errors == ErrorMap(state)
    {
      errors := map[];
      var remaining := state.Keys;
      while remaining != {}
        invariant remaining <= state.Keys
        invariant errors == map k | k in state.Keys - remaining && state[k] != [] :: state[k][0]
        decreases remaining
      {
        var key :| key in remaining;
        if state[key] != [] {
          errors := errors[key := state[key][0]];
        }
        remaining := remaining - {key};
      }
    }
  }

  /** The store's duplicate-ISBN signal is recognised as a unique-constraint violation. */
  lemma DuplicateSignalRecognised()
    ensures BooksController.IsUniqueConstraintViolation(InnerMessage(DuplicateIsbn))
  {
    assert OccursAt(UniqueIndexMessage, "UNIQUE", 0);
  }
}
