/**
  The Index listing pipeline: keep the books whose title or author contains
  the search text, order them by title, and cut out one page of 20.
 */
module Listing {
  import opened Wrappers
  import opened Text
  import opened Books

  const PageSize: int := 20

  function Min(a: int, b: int): int {
    if a <= b then a else b
  }

  /** The Where clause: the title or the author contains the search text. */
  predicate Matches(b: Book, search: string) {
    Contains(b.title, search) || Contains(b.author, search)
  }

  /** A null or empty search string selects every book. */
  predicate Selected(b: Book, search: Option<string>) {
    search.None? || search.value == "" || Matches(b, search.value)
  }

  /** Where(b => b.Title.Contains(search) || b.Author.Contains(search)), keeping the order. */
  function Filter(rows: seq<Book>, search: string): (r: seq<Book>)
    ensures forall b :: multiset(r)[b] == if Matches(b, search) then multiset(rows)[b] else 0
  {
    if rows == [] then []
    else
      assert rows == [rows[0]] + rows[1..];
      (if Matches(rows[0], search) then [rows[0]] else []) + Filter(rows[1..], search)
  }

  /** Non-decreasing by title in ordinal order, each book against the next. */
  ghost predicate SortedByTitle(s: seq<Book>) {
    forall i :: 0 < i < |s| ==> OrdinalLe(s[i - 1].title, s[i].title)
  }

  /** Puts x in front of the first book whose title is not smaller, so equal titles keep their order. */
  function Insert(x: Book, s: seq<Book>): (r: seq<Book>)
    requires SortedByTitle(s)
    ensures SortedByTitle(r)
    ensures multiset(r) == multiset(s) + multiset{x}
    ensures |r| == |s| + 1 && (r[0] == x || (0 < |s| && r[0] == s[0]))
  {
    if s == [] || OrdinalLe(x.title, s[0].title) then [x] + s
    else
      OrdinalLeTotal(x.title, s[0].title);
      assert s == [s[0]] + s[1..];
      [s[0]] + Insert(x, s[1..])
  }

  /** OrderBy(b => b.Title): a stable sort by title. */
  function SortByTitle(s: seq<Book>): (r: seq<Book>)
    ensures SortedByTitle(r)
    ensures multiset(r) == multiset(s)
  {
    if s == [] then []
    else
      assert s == [s[0]] + s[1..];
      Insert(s[0], SortByTitle(s[1..]))
  }

  /** In a list sorted by title, every earlier title is at most every later one. */
  lemma {:induction false} SortedAllPairs(s: seq<Book>, i: int, j: int)
    requires SortedByTitle(s)
    requires 0 <= i <= j < |s|
    ensures OrdinalLe(s[i].title, s[j].title)
    decreases j - i
  {
    if i == j {
      OrdinalLeReflexive(s[i].title);
    } else {
      SortedAllPairs(s, i + 1, j);
      OrdinalLeTransitive(s[i].title, s[i + 1].title, s[j].title);
    }
  }

  lemma {:induction false} OrdinalLeReflexive(s: string)
    ensures OrdinalLe(s, s)
  {
    if s != [] {
      OrdinalLeReflexive(s[1..]);
    }
  }

  /** The selection before paging: the selected books, each as often as in `rows`, ordered by title. */
  function Ordered(rows: seq<Book>, search: Option<string>): (r: seq<Book>)
    ensures SortedByTitle(r)
    ensures forall b :: multiset(r)[b] == if Selected(b, search) then multiset(rows)[b] else 0
  {
    if search.None? || search.value == "" then SortByTitle(rows) else SortByTitle(Filter(rows, search.value))
  }

  /**
    ToPagedList(pageNumber, PageSize): the items at positions
    (pageNumber - 1) * 20 up to pageNumber * 20 - 1, as far as they exist.
   */
  function Page(s: seq<Book>, pageNumber: int): (r: seq<Book>)
    requires 1 <= pageNumber
    ensures |r| <= PageSize
    ensures forall i :: 0 <= i < |r| ==> (pageNumber - 1) * PageSize + i < |s| && r[i] == s[(pageNumber - 1) * PageSize + i]
    ensures |r| == if |s| <= (pageNumber - 1) * PageSize then 0
                   else Min(PageSize, |s| - (pageNumber - 1) * PageSize)
  {
    var skip := (pageNumber - 1) * PageSize;
    if |s| <= skip then [] else s[skip..if skip + PageSize <= |s| then skip + PageSize else |s|]
  }

  /** Every item of the list is on page j / 20 + 1, at position j % 20. */
  lemma EveryItemOnItsPage(s: seq<Book>, j: int)
    requires 0 <= j < |s|
    ensures j % PageSize < |Page(s, j / PageSize + 1)|
    ensures Page(s, j / PageSize + 1)[j % PageSize] == s[j]
  {
  }

  /** A page of the ordered selection holds only selected books, still ordered by title. */
  lemma PageOfOrdered(rows: seq<Book>, search: Option<string>, pageNumber: int)
    requires 1 <= pageNumber
    ensures forall b :: b in Page(Ordered(rows, search), pageNumber) ==> b in rows && Selected(b, search)
    ensures SortedByTitle(Page(Ordered(rows, search), pageNumber))
  {
    var ordered := Ordered(rows, search);
    var items := Page(ordered, pageNumber);
    forall b | b in items ensures b in rows && Selected(b, search) {
      var i :| 0 <= i < |items| && items[i] == b;
      assert b in ordered;
      assert multiset(ordered)[b] > 0;
    }
    var skip := (pageNumber - 1) * PageSize;
    forall i | 0 < i < |items| ensures OrdinalLe(items[i - 1].title, items[i].title) {
      assert items[i - 1] == ordered[skip + i - 1] && items[i] == ordered[skip + i];
    }
  }

  /** The page handed to the view: its items, its number and the size of the whole selection. */
  datatype PagedList = PagedList(items: seq<Book>, pageNumber: int, totalItemCount: nat)

  /** Index without the rendering: a missing page number means page 1. */
  function Index(rows: seq<Book>, search: Option<string>, page: Option<int>): (r: PagedList)
    requires page.None? || 1 <= page.value
    ensures r.pageNumber == if page.None? then 1 else page.value
    ensures |r.items| <= PageSize
    ensures forall b :: b in r.items ==> b in rows && Selected(b, search)
    ensures SortedByTitle(r.items)
    ensures r.items == Page(Ordered(rows, search), r.pageNumber)
    ensures r.totalItemCount == |Ordered(rows, search)|
  {
    var pageNumber := if page.None? then 1 else page.value;
    var ordered := Ordered(rows, search);
    PageOfOrdered(rows, search, pageNumber);
    PagedList(Page(ordered, pageNumber), pageNumber, |ordered|)
  }
}
