# BuchVerwaltung book catalogue, modelled in Dafny

BuchVerwaltung is a small ASP.NET Core catalogue of books. Each book has a
title, an author, an ISBN and a publication year. The ISBN is unique across
the catalogue. This project models the part of the application that makes
decisions:

- the `Book` entity and its data-annotation validation (`Books`, `book.dfy`);
- the book table with its unique ISBN index and identity counter (`Store`, `store.dfy`);
- the `Index` listing pipeline: filter, order by title, page of 20 (`Listing`, `listing.dfy`);
- the `BooksController` actions, each reduced to its effect on the table and the response it gives (`Controller`, `books_controller.dfy`);
- the .NET string operations they rely on (`Text`, `text.dfy`), and an `Option` type (`wrappers.dfy`).

The table is a class, `BookStore`. It holds `map<int, Book>` and the next
identity value. Its invariant `Valid()` says three things: every row sits
under its own positive id, every id is below the counter, and no two rows
share an ISBN. The actions that change the table are methods of
`BooksController` that modify the store. Their postconditions give the new
table in terms of the old one, and say which outcome the request gets. A save
that fails always leaves the table exactly as it was. The read-only actions
and the listing are functions.

Validation is modelled one attribute at a time. `[Required]`,
`[StringLength]`, `[RegularExpression]` and `[Range]` are each a function
that returns the messages it records. `Validate` collects them per property
into a `ModelState` map, in declaration order, so `[Required]` comes first.
Separate predicates state each field rule directly (`TitleOk`, `AuthorOk`,
`IsbnOk`, `YearOk`), and lemmas connect the two forms.

Some behaviours of the code worth knowing:

- The search is a plain, case-sensitive `Contains`.
- `DeleteConfirmed` of an unknown id redirects to Index. Nothing reports NotFound.
- `EditAjax` rejects only `Id == 0` as a missing id.
- The form `Edit` does no existence check before saving. An unknown non-zero id surfaces as a failed update (`DbUpdateConcurrencyException`), and that gives NotFound.
- A book posted to the form `Edit` with Id 0 and route id 0 has the key's default value, so Entity Framework's `Update` tracks it as new. It is inserted under a fresh id, and the browser is sent to Index.
- The form `Create` and `Edit` actions do not catch a duplicate ISBN. The exception leaves the action, which the model shows as the `StorageError` outcome.

## Model

| member | source | states |
|---|---|---|
| Text.IsNullOrWhiteSpace | BuchVerwaltung/Models/Book.cs:9-21 | `[Required]` rejects a string exactly when every character is white space, which includes the empty string |
| Books.AllIsbnChars | BuchVerwaltung/Models/Book.cs:18 | the scan is true exactly when every character is in `[\d\-xX]` |
| Books.ValidationErrors | BuchVerwaltung/Models/Book.cs:7-23 | the book is valid iff all four field rules hold. Each field's key is in the error map iff its own rule fails, so fields are checked independently. Id never gets an error. The value under a key is the first message: the Required one when the field has no content, otherwise the length or pattern one |
| Books.ValidIffNoErrors | BuchVerwaltung/Controllers/BooksController.cs:284-296 | `ModelState.IsValid` holds iff the extracted error map is empty |
| Books.RuleBoundaries | BuchVerwaltung/Models/Book.cs:9-23 | ISBNs of length 9 and 18 fail, as does one with the letter A. Lengths 10 and 17 with digits, hyphens and X pass. Years 999 and 2026 fail; 1000 and 2025 pass. A one-letter title fails, and so does a whitespace-only one |
| Books.ShortTitleExample | BuchVerwaltung/Models/Book.cs:9-11 | `{title "A", author "Valid Author", isbn "9780441013593", year 1965}` yields exactly one error: the length message under Title |
| Text.ContainsIff | BuchVerwaltung/Controllers/BooksController.cs:35-37 | `Contains(s, sub)` holds iff `sub` occurs at some position of `s` |
| Text.OrdinalLeTotal | BuchVerwaltung/Controllers/BooksController.cs:40 | any two titles are comparable in the order used for sorting |
| Text.OrdinalLeTransitive | BuchVerwaltung/Controllers/BooksController.cs:40 | the title order is transitive |
| Store.WriteKeepsIsbnUnique | BuchVerwaltung/Data/ApplicationDbContext.cs:18-20 | writing a book under an id keeps ISBNs unique iff no other row already holds its ISBN |
| Store.RowsBelow | BuchVerwaltung/Controllers/BooksController.cs:31 | the scan yields exactly the stored rows with an id below the bound, in strictly ascending id order |
| Store.BookStore.Exists | BuchVerwaltung/Controllers/BooksController.cs:298-301 | `BookExists(id)` holds iff some stored book has that id |
| Store.BookStore.Find | BuchVerwaltung/Controllers/BooksController.cs:156 | finds a book iff one exists with that id, and returns the row stored under it |
| Store.BookStore.Rows | BuchVerwaltung/Controllers/BooksController.cs:31 | every stored book appears exactly once, in ascending id order |
| Store.BookStore.Add | BuchVerwaltung/Controllers/BooksController.cs:97-98 | on success, the submitted fields are stored under a fresh id and the counter advances. An injected fault or an ISBN already in use leaves the table unchanged and gives `Failed` or `DuplicateIsbn`. The ISBN index is kept |
| Store.BookStore.Update | BuchVerwaltung/Controllers/BooksController.cs:126-127 | on success, only the row with the book's id is replaced. A book with Id 0 is inserted under a fresh id instead, as `Add` does. An unknown non-zero id gives `NoSuchRow`; an ISBN held by another row gives `DuplicateIsbn`; a fault gives `Failed`. Each failure leaves the table unchanged |
| Store.BookStore.Remove | BuchVerwaltung/Controllers/BooksController.cs:179-180 | on success, exactly that row is removed. Otherwise the table is unchanged |
| Listing.Filter | BuchVerwaltung/Controllers/BooksController.cs:33-38 | every book whose title or author contains the search text is kept, as often as it occurs in the input. Every other book is dropped |
| Listing.Insert | BuchVerwaltung/Controllers/BooksController.cs:40 | inserting into a title-sorted list gives a title-sorted list with that one book added |
| Listing.SortByTitle | BuchVerwaltung/Controllers/BooksController.cs:40 | the result is sorted by title and is a permutation of the input |
| Listing.SortedAllPairs | BuchVerwaltung/Controllers/BooksController.cs:40 | in a sorted list, every earlier title is at most every later title |
| Listing.Ordered | BuchVerwaltung/Controllers/BooksController.cs:31-40 | before paging, the result holds exactly the books whose title or author contains the search text. With a null or empty search it holds all books. Each book keeps its multiplicity, and the result is sorted by title |
| Listing.Page | BuchVerwaltung/Controllers/BooksController.cs:42-47 | page p holds the items at positions (p-1)*20 onwards, at most 20 of them, and as many as exist |
| Listing.EveryItemOnItsPage | BuchVerwaltung/Controllers/BooksController.cs:42-47 | item j of the ordered list is on page j/20+1, at position j%20 |
| Listing.PageOfOrdered | BuchVerwaltung/Controllers/BooksController.cs:31-47 | a page of the ordered selection holds only selected books, still sorted by title |
| Listing.Index | BuchVerwaltung/Controllers/BooksController.cs:42-47 | a missing page number means page 1. The items are exactly page p of the ordered selection, and the total count is the size of that selection. So the page has at most 20 items, all selected input books, sorted by title |
| Controller.BooksController.Index | BuchVerwaltung/Controllers/BooksController.cs:25-70 | the response is a full or partial list, depending on the AJAX flag. It echoes the filter and holds exactly the listing page of the stored rows for that filter and page number: stored, selected, title-sorted books. A query exception gives a 500 text for AJAX requests and propagates otherwise |
| Controller.BooksController.Details | BuchVerwaltung/Controllers/BooksController.cs:74-82 | NotFound iff the id is missing or unknown. Otherwise the view shows the row with that id |
| Controller.BooksController.DetailsPartial | BuchVerwaltung/Controllers/BooksController.cs:154-159 | NotFound iff the id is unknown. Otherwise the `_DetailsPartial` fragment shows that row |
| Controller.BooksController.EditPartial | BuchVerwaltung/Controllers/BooksController.cs:163-171 | an unknown id gives the alert fragment, not a 404. Otherwise the `_EditForm` fragment shows that row |
| Controller.BooksController.Create | BuchVerwaltung/Controllers/BooksController.cs:93-102 | an invalid book redisplays the form and the table is untouched. A valid book is added under a fresh id, with a redirect to Index. A duplicate ISBN or a fault gives a storage error and leaves the table unchanged |
| Controller.BooksController.Edit | BuchVerwaltung/Controllers/BooksController.cs:118-139 | a route id different from the book's id gives NotFound, with nothing changed. An invalid book redisplays the form. A book with Id 0 is inserted under a fresh id, with a redirect to Index. An unknown non-zero id gives NotFound. A duplicate ISBN or a fault gives a storage error with the table unchanged. Otherwise only that row is replaced |
| Controller.BooksController.DeleteConfirmed | BuchVerwaltung/Controllers/BooksController.cs:174-183 | an unknown id redirects to Index and changes nothing, so repeating the call is harmless. A known id is removed, all other rows are unchanged, and the response redirects to Index. If that save fails, the exception leaves the action as a storage error and the table is unchanged |
| Controller.BooksController.CreateAjax | BuchVerwaltung/Controllers/BooksController.cs:187-222 | an invalid book gives 400 whose fields hold exactly the invalid fields, each with its first message. Success gives 200 and adds the book under a fresh id. A duplicate ISBN gives 400 with only Isbn in fields. Any other failure gives 500. Each failure leaves the table unchanged |
| Controller.BooksController.EditAjax | BuchVerwaltung/Controllers/BooksController.cs:226-276 | the checks run in order: `Id == 0` gives 400 on Id, an unknown id gives 404, then validation gives 400 on the invalid fields, then a duplicate ISBN gives 400 on Isbn or another failure gives 500. Only a save that succeeds replaces that one row |
| Controller.BooksController.IsUniqueConstraintViolation | BuchVerwaltung/Controllers/BooksController.cs:278-282 | true iff there is an inner message and it contains "UNIQUE", "duplicate" or "verletzt Unique" (case-sensitive). A missing inner exception gives false |
| Controller.BooksController.ExtractValidationErrors | BuchVerwaltung/Controllers/BooksController.cs:284-296 | the loop over ModelState's keys yields the map from each key with errors to its first error, and no other keys |
| Controller.DuplicateSignalRecognised | BuchVerwaltung/Controllers/BooksController.cs:199 | the store's duplicate-ISBN failure is classified as a unique-constraint violation |

## Left out

- Rendering and routing. Views, partial views and `ViewData["CurrentFilter"]` are reduced to outcome values. The `X-Requested-With` header test becomes a boolean. The GET actions `Create()`, `Edit(int?)` and `Delete(int?)` only render a page and are not modelled. `Edit(int?)` and `Delete(int?)` do the same lookup as `Details`.
- Framework plumbing: async/await, `[ValidateAntiForgeryToken]`, constructor injection and console logging.
- Model-binding errors, such as a non-numeric year or a malformed JSON body, are not modelled. A null string property is modelled as the empty string. Both give the same first error, the Required message.
- Database failures that this model cannot see, such as a lost connection or other constraints, are an input `fault` to each save and to the Index query. The message of the unique-index violation is a constant that contains "UNIQUE"; the exact text depends on the database provider.
- Database collation is not modelled. `Contains`, `OrderBy` and the unique index use exact, ordinal comparison here. A case-insensitive collation would match more and would treat "x" and "X" in an ISBN as the same.
- Identity generation. A client-supplied non-zero Id on create is ignored, and the store always assigns the next counter value. The counter advances only on a successful insert. 32-bit overflow of ids and years is not modelled.
- Concurrency. Requests run one at a time. A `DbUpdateConcurrencyException` for a row that still exists cannot arise sequentially; it would leave the action as a storage error.
- `\d` in the ISBN pattern also matches non-ASCII Unicode digits in .NET. The model accepts ASCII `0`–`9` only. The regular-expression match timeout is not modelled.
- X.PagedList internals: only the offset-paging meaning, the page number and the total count are modelled. The library rejects page numbers below 1, so `page >= 1` is a precondition of `Index`.
- Listing.SortByTitle: stability is not stated. Equal titles keep their input order, which is ascending id, but the contract does not say so. The database itself leaves the order of equal titles unspecified.
