/**
  The Book entity and its data-annotation validation. Each validation
  attribute is a function from the property value to the error messages it
  records; Validate gathers them per property into a ModelState, the map
  from property name to its errors in attribute order.
 */
module Books {
  import opened Text

  /** A catalogue entry. The store assigns `id`; a book not yet stored has id 0. */
  datatype Book = Book(id: int, title: string, author: string, isbn: string, year: int)

  /** The properties of Book, the keys of its ModelState and of the JSON `fields` map. */
  datatype Field = IdKey | TitleKey | AuthorKey | IsbnKey | YearKey {
    /** The property name as it appears in a response. */
    function Name(): string {
      match this
      case IdKey => "Id"
      case TitleKey => "Title"
      case AuthorKey => "Author"
      case IsbnKey => "Isbn"
      case YearKey => "Year"
    }
  }

  const TitleRequiredMessage: string := "Der Titel ist erforderlich."
  const TitleLengthMessage: string := "Der Titel muss zwischen 2 und 100 Zeichen lang sein."
  const AuthorRequiredMessage: string := "Der Autor ist erforderlich."
  const AuthorLengthMessage: string := "Der Autorname muss zwischen 2 und 80 Zeichen lang sein."
  const IsbnRequiredMessage: string := "Die ISBN ist erforderlich."
  const IsbnPatternMessage: string := "Ungültige ISBN (10–13 Ziffern, ggf. mit Bindestrichen)."
  const YearRangeMessage: string := "Das Erscheinungsjahr muss zwischen 1000 und 2025 liegen."

  /** Per property, the messages of the validation attributes that failed, in declaration order. */
  type ModelState = map<Field, seq<string>>

  /** [Required]: rejects a null, empty or whitespace-only string. */
  function Required(s: string, message: string): seq<string> {
    if IsNullOrWhiteSpace(s) then [message] else []
  }

  /** [StringLength(maximum, MinimumLength = minimum)], on the UTF-16 length. */
  function StringLength(s: string, minimum: nat, maximum: nat, message: string): seq<string> {
    if minimum <= Utf16Length(s) <= maximum then [] else [message]
  }

  /** A character of the class [\d\-xX] (ASCII digits only). */
  predicate IsIsbnChar(c: char) {
    '0' <= c <= '9' || c == '-' || c == 'x' || c == 'X'
  }

  /** Every character is in [\d\-xX]. */
  function AllIsbnChars(s: string): (r: bool)
    ensures r <==> forall i :: 0 <= i < |s| ==> IsIsbnChar(s[i])
  {
    s == [] || (IsIsbnChar(s[0]) && AllIsbnChars(s[1..]))
  }

  /**
    [RegularExpression(@"^[\d\-xX]{10,17}$")]: the whole value must match.
    Like the framework's attribute it lets the empty string through and
    leaves that case to [Required].
   */
  function IsbnPattern(s: string, message: string): seq<string> {
    if s == "" || (10 <= |s| <= 17 && AllIsbnChars(s)) then [] else [message]
  }

  /** [Range(minimum, maximum)] on an int, both bounds inclusive. */
  function Range(n: int, minimum: int, maximum: int, message: string): seq<string> {
    if minimum <= n <= maximum then [] else [message]
  }

  function TitleErrors(title: string): seq<string> {
    Required(title, TitleRequiredMessage) + StringLength(title, 2, 100, TitleLengthMessage)
  }

  function AuthorErrors(author: string): seq<string> {
    Required(author, AuthorRequiredMessage) + StringLength(author, 2, 80, AuthorLengthMessage)
  }

  function IsbnErrors(isbn: string): seq<string> {
    Required(isbn, IsbnRequiredMessage) + IsbnPattern(isbn, IsbnPatternMessage)
  }

  /** [Required] on a non-nullable int always holds, so only [Range] can fail. */
  function YearErrors(year: int): seq<string> {
    Range(year, 1000, 2025, YearRangeMessage)
  }

  /** Model validation of a bound Book: one entry per property; Id has no attribute. */
  function Validate(b: Book): ModelState {
    map[IdKey := [],
        TitleKey := TitleErrors(b.title),
        AuthorKey := AuthorErrors(b.author),
        IsbnKey := IsbnErrors(b.isbn),
        YearKey := YearErrors(b.year)]
  }

  /** ModelState.IsValid: no property recorded an error. */
  predicate IsValid(ms: ModelState) {
    forall k :: k in ms ==> ms[k] == []
  }

  /** Each property that recorded errors, mapped to the first of them. */
  function ErrorMap(ms: ModelState): map<Field, string> {
    map k | k in ms && ms[k] != [] :: ms[k][0]
  }

  // The field rules, stated on their own, as the catalogue promises them.

  /** Some character is not white space. */
  ghost predicate HasContent(s: string) {
    exists i :: 0 <= i < |s| && !IsWhiteSpace(s[i])
  }

  ghost predicate TitleOk(title: string) {
    HasContent(title) && 2 <= Utf16Length(title) <= 100
  }

  ghost predicate AuthorOk(author: string) {
    HasContent(author) && 2 <= Utf16Length(author) <= 80
  }

  ghost predicate IsbnOk(isbn: string) {
    10 <= |isbn| <= 17 && forall i :: 0 <= i < |isbn| ==> IsIsbnChar(isbn[i])
  }

  ghost predicate YearOk(year: int) {
    1000 <= year <= 2025
  }

  /** The Id is not constrained. */
  ghost predicate BookOk(b: Book) {
    TitleOk(b.title) && AuthorOk(b.author) && IsbnOk(b.isbn) && YearOk(b.year)
  }

  /** A ModelState is valid exactly when it maps no property to an error. */
  lemma ValidIffNoErrors(ms: ModelState)
    ensures IsValid(ms) <==> ErrorMap(ms) == map[]
  {
    if !IsValid(ms) {
      var k :| k in ms && ms[k] != [];
      assert k in ErrorMap(ms);
    }
  }

  /**
    Validation of a Book: the error map has a key exactly for each property
    whose own rule fails, never for Id, and maps it to the first message
    ([Required] before the length or pattern rule).
   */
  lemma ValidationErrors(b: Book)
    ensures IsValid(Validate(b)) <==> BookOk(b)
    ensures IdKey !in ErrorMap(Validate(b))
    ensures ErrorMap(Validate(b)).Keys <= {TitleKey, AuthorKey, IsbnKey, YearKey}
    ensures TitleKey in ErrorMap(Validate(b)) <==> !TitleOk(b.title)
    ensures AuthorKey in ErrorMap(Validate(b)) <==> !AuthorOk(b.author)
    ensures IsbnKey in ErrorMap(Validate(b)) <==> !IsbnOk(b.isbn)
    ensures YearKey in ErrorMap(Validate(b)) <==> !YearOk(b.year)
    ensures !TitleOk(b.title) ==>
      ErrorMap(Validate(b))[TitleKey] == (if HasContent(b.title) then TitleLengthMessage else TitleRequiredMessage)
    ensures !AuthorOk(b.author) ==>
      ErrorMap(Validate(b))[AuthorKey] == (if HasContent(b.author) then AuthorLengthMessage else AuthorRequiredMessage)
    ensures !IsbnOk(b.isbn) ==>
      ErrorMap(Validate(b))[IsbnKey] == (if HasContent(b.isbn) then IsbnPatternMessage else IsbnRequiredMessage)
    ensures !YearOk(b.year) ==> ErrorMap(Validate(b))[YearKey] == YearRangeMessage
  {
  }

  /** The edges of each rule: lengths 9 and 18 and a foreign letter fail the ISBN rule; 999 and 2026 fail the year rule. */
  lemma RuleBoundaries()
    ensures !IsbnOk("123456789") && IsbnOk("123456789X") && IsbnOk("978-3-16-148410-0")
    ensures !IsbnOk("12345678901234567-") && !IsbnOk("123456789A")
    ensures !YearOk(999) && YearOk(1000) && YearOk(2025) && !YearOk(2026)
    ensures !TitleOk("A") && TitleOk("Du") && !TitleOk("  ")
  {
    assert "123456789A"[9] == 'A';
    assert "  "[0] == ' ' && "  "[1] == ' ';
    assert "Du"[0] == 'D';
  }

  /** A one-letter title is reported under Title only, with the length message. */
  lemma ShortTitleExample()
    ensures ErrorMap(Validate(Book(0, "A", "Valid Author", "9780441013593", 1965))) ==
      map[TitleKey := TitleLengthMessage]
  {
    ExampleFieldsChecked();
    OnlyTitleFails(Book(0, "A", "Valid Author", "9780441013593", 1965));
  }

  /** When only the title length rule fails, Title is the one key of the error map. */
  lemma OnlyTitleFails(b: Book)
    requires TitleErrors(b.title) == [TitleLengthMessage]
    requires AuthorErrors(b.author) == [] && IsbnErrors(b.isbn) == [] && YearErrors(b.year) == []
    ensures ErrorMap(Validate(b)) == map[TitleKey := TitleLengthMessage]
  {
  }

  /** The attribute results for the fields of the example book. */
  lemma ExampleFieldsChecked()
    ensures TitleErrors("A") == [TitleLengthMessage]
    ensures AuthorErrors("Valid Author") == []
    ensures IsbnErrors("9780441013593") == []
  {
    assert !IsWhiteSpace("A"[0]);
    assert !IsWhiteSpace("Valid Author"[0]);
    IsbnExampleAccepted();
  }

  lemma IsbnExampleAccepted()
    ensures IsbnErrors("9780441013593") == []
  {
    IsbnExampleHasContent();
    IsbnExampleMatches();
  }

  // The example ISBN starts with a digit, so Required accepts it.
  lemma IsbnExampleHasContent()
    ensures !IsNullOrWhiteSpace("9780441013593")
  {
    assert !IsWhiteSpace("9780441013593"[0]);
  }

  // Thirteen digits fall inside the 10..17 range of the pattern.
  lemma IsbnExampleMatches()
    ensures IsbnPattern("9780441013593", IsbnPatternMessage) == []
  {
    assert AllIsbnChars("9780441013593");
  }
}
