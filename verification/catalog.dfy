/**
 * The staff catalog views over book copies: the all-copies list with its
 * search, category, availability and author filters, the available-only
 * list with the same filters but availability, and the pages of six
 * those views show.
 */
module Catalog {
  import opened Wrappers
  import opened Query
  import opened Text
  import opened Models

  const PageSize: nat := 6

  /**
   * The query parameters of the all-copies view. An empty `q` or
   * `availability` and a `None` id leave that filter out.
   */
  datatype CatalogFilter = CatalogFilter(q: string, category: Option<nat>, availability: string, author: Option<nat>)

  /** Copy `i` exists and so does its book. */
  predicate HasBook(db: Db, i: nat) {
    i < |db.copies| && db.copies[i].book < |db.books|
  }

  /** Some author of book `b` has a name containing `q`, ignoring case. */
  predicate AuthorNameMatches(db: Db, b: Book, q: string) {
    exists a :: a in b.authors && a < |db.authors| && ContainsIgnoreCase(db.authors[a].name, q)
  }

  /** The free-text search: the title, an author's name or the ISBN contains `q`, ignoring case. */
  predicate MatchesSearch(db: Db, i: nat, q: string) {
    HasBook(db, i)
    && var b := db.books[db.copies[i].book];
       ContainsIgnoreCase(b.title, q) || AuthorNameMatches(db, b, q) || ContainsIgnoreCase(b.isbn, q)
  }

  predicate InCategory(db: Db, i: nat, category: nat) {
    HasBook(db, i) && db.books[db.copies[i].book].category == category
  }

  predicate HasStatus(db: Db, i: nat, availability: string) {
    i < |db.copies| && CopyStatusName(db.copies[i].status) == availability
  }

  predicate ByAuthor(db: Db, i: nat, author: nat) {
    HasBook(db, i) && author in db.books[db.copies[i].book].authors
  }

  /** `BookCopy.objects.all()`. */
  function AllCopies(db: Db): (r: seq<nat>)
    ensures Increasing(r)
    ensures forall i :: 0 <= i < |db.copies| ==> i in r
    ensures forall k :: 0 <= k < |r| ==> r[k] < |db.copies|
  {
    Select(|db.copies|, (i: nat) => i < |db.copies|)
  }

  /** One optional filter step: `if on: books = books.filter(p)`. */
  function FilterIf(books: seq<nat>, on: bool, p: nat -> bool): (r: seq<nat>)
    ensures forall x :: x in r <==> x in books && (on ==> p(x))
  {
    if on then Refine(books, p) else books
  }

  /** The all-copies view's list: each supplied filter applied in turn. */
  function AllBooks(db: Db, f: CatalogFilter): (r: seq<nat>)
    ensures forall i: nat :: i in r <==>
              && i < |db.copies|
              && (f.q == "" || MatchesSearch(db, i, f.q))
              && (f.category.None? || InCategory(db, i, f.category.value))
              && (f.availability == "" || HasStatus(db, i, f.availability))
              && (f.author.None? || ByAuthor(db, i, f.author.value))
  {
    var books := AllCopies(db);
    var searched := FilterIf(books, f.q != "", (i: nat) => MatchesSearch(db, i, f.q));
    assert forall x: nat :: x in searched <==> x < |db.copies| && (f.q == "" || MatchesSearch(db, x, f.q));
    var inCategory := FilterIf(searched, f.category.Some?, (i: nat) => f.category.Some? && InCategory(db, i, f.category.value));
    assert forall x: nat :: x in inCategory <==>
      x in searched && (f.category.None? || InCategory(db, x, f.category.value));
    var withStatus := FilterIf(inCategory, f.availability != "", (i: nat) => HasStatus(db, i, f.availability));
    assert forall x: nat :: x in withStatus <==>
      x in inCategory && (f.availability == "" || HasStatus(db, x, f.availability));
    var r := FilterIf(withStatus, f.author.Some?, (i: nat) => f.author.Some? && ByAuthor(db, i, f.author.value));
    assert forall x: nat :: x in r <==> x in withStatus && (f.author.None? || ByAuthor(db, x, f.author.value));
    r
  }

  /** The list keeps primary-key order. */
  lemma FilterIfIncreasing(books: seq<nat>, on: bool, p: nat -> bool)
    requires Increasing(books)
    ensures Increasing(FilterIf(books, on, p))
  {
    if on {
      RefineIncreasing(books, p);
    }
  }

  lemma AllBooksIncreasing(db: Db, f: CatalogFilter)
    ensures Increasing(AllBooks(db, f))
  {
    var s0 := AllCopies(db);
    var p1 := (i: nat) => MatchesSearch(db, i, f.q);
    var p2 := (i: nat) => f.category.Some? && InCategory(db, i, f.category.value);
    var p3 := (i: nat) => HasStatus(db, i, f.availability);
    var p4 := (i: nat) => f.author.Some? && ByAuthor(db, i, f.author.value);
    FilterIfIncreasing(s0, f.q != "", p1);
    var s1 := FilterIf(s0, f.q != "", p1);
    FilterIfIncreasing(s1, f.category.Some?, p2);
    var s2 := FilterIf(s1, f.category.Some?, p2);
    FilterIfIncreasing(s2, f.availability != "", p3);
    var s3 := FilterIf(s2, f.availability != "", p3);
    FilterIfIncreasing(s3, f.author.Some?, p4);
  }

  /** With no filter supplied the list holds every copy, in order. */
  lemma UnfilteredListsEveryCopy(db: Db)
    ensures AllBooks(db, CatalogFilter("", None, "", None)) == AllCopies(db)
  {
  }

  /** Every available copy, in primary-key order: the available-only list before any filter. */
  function AvailableCopies(db: Db): (r: seq<nat>)
    ensures Increasing(r)
    ensures forall i: nat :: i in r <==> i < |db.copies| && db.copies[i].status == Available
  {
    Select(|db.copies|, (i: nat) => i < |db.copies| && db.copies[i].status == Available)
  }

  /** The available-only view's list: available copies, then the search, category and author filters. */
  function AvailableBooks(db: Db, q: string, category: Option<nat>, author: Option<nat>): (r: seq<nat>)
    ensures forall i: nat :: i in r <==>
              && i < |db.copies| && db.copies[i].status == Available
              && (q == "" || MatchesSearch(db, i, q))
              && (category.None? || InCategory(db, i, category.value))
              && (author.None? || ByAuthor(db, i, author.value))
  {
    var books := AvailableCopies(db);
    var searched := FilterIf(books, q != "", (i: nat) => MatchesSearch(db, i, q));
    var inCategory := FilterIf(searched, category.Some?, (i: nat) => category.Some? && InCategory(db, i, category.value));
    FilterIf(inCategory, author.Some?, (i: nat) => author.Some? && ByAuthor(db, i, author.value))
  }

  /**
   * The available-only list is the all-copies list filtered on availability
   * "available": the same copies in the same order.
   */
  lemma AvailableIsAllFilteredOnStatus(db: Db, q: string, category: Option<nat>, author: Option<nat>)
    ensures AvailableBooks(db, q, category, author) == AllBooks(db, CatalogFilter(q, category, "available", author))
  {
    var s0 := AvailableCopies(db);
    var p1 := (i: nat) => MatchesSearch(db, i, q);
    var p2 := (i: nat) => category.Some? && InCategory(db, i, category.value);
    var p4 := (i: nat) => author.Some? && ByAuthor(db, i, author.value);
    FilterIfIncreasing(s0, q != "", p1);
    var s1 := FilterIf(s0, q != "", p1);
    FilterIfIncreasing(s1, category.Some?, p2);
    var s2 := FilterIf(s1, category.Some?, p2);
    FilterIfIncreasing(s2, author.Some?, p4);
    AllBooksIncreasing(db, CatalogFilter(q, category, "available", author));
    var r := AvailableBooks(db, q, category, author);
    var all := AllBooks(db, CatalogFilter(q, category, "available", author));
    forall i: nat | i < |db.copies|
      ensures HasStatus(db, i, "available") <==> db.copies[i].status == Available
    {
    }
    assert Increasing(r);
    assert forall x: nat :: x in r <==> x in all;
    IncreasingUnique(r, all);
  }

  /** Number of pages for `n` results; an empty list still has one page. */
  function PageCount(n: nat): (c: nat)
    ensures c >= 1
    ensures n == 0 ==> c == 1
    ensures n <= c * PageSize
    ensures n > 0 ==> (c - 1) * PageSize < n
  {
    if n == 0 then 1 else (n + PageSize - 1) / PageSize
  }

  /**
   * The page shown for the `page` parameter: the first when it is absent or
   * not a number, the last when it is out of range.
   */
  function PageNumber(n: nat, page: Option<int>): (p: nat)
    ensures 1 <= p <= PageCount(n)
    ensures page.None? ==> p == 1
    ensures page.Some? && 1 <= page.value <= PageCount(n) ==> p == page.value
    ensures page.Some? && !(1 <= page.value <= PageCount(n)) ==> p == PageCount(n)
  {
    match page
    case None => 1
    case Some(k) => if 1 <= k <= PageCount(n) then k else PageCount(n)
  }

  /** The items of one page of `ids`. */
  function Page(ids: seq<nat>, page: Option<int>): (r: seq<nat>)
    ensures |r| <= PageSize
    ensures ids != [] ==> r != []
    ensures forall x :: x in r ==> x in ids
  {
    var start := (PageNumber(|ids|, page) - 1) * PageSize;
    var end := if start + PageSize <= |ids| then start + PageSize else |ids|;
    ids[start..end]
  }

  /** Item `k` of the list is item `k % 6` of page `k / 6 + 1`. */
  lemma ItemOnItsPage(ids: seq<nat>, k: nat)
    requires k < |ids|
    ensures var p := Page(ids, Some(k / PageSize + 1));
            k % PageSize < |p| && p[k % PageSize] == ids[k]
  {
    assert k / PageSize + 1 <= PageCount(|ids|);
  }

  /**
   * The page the available-only view shows, as written: it is cut from the
   * available copies before the search, category and author filters apply,
   * so it depends on none of them.
   */
  function AvailableBooksPage(db: Db, page: Option<int>): (r: seq<nat>)
    ensures |r| <= PageSize
    ensures AvailableCopies(db) != [] ==> r != []
    ensures forall i :: i in r ==> i < |db.copies| && db.copies[i].status == Available
  {
    Page(AvailableCopies(db), page)
  }

  /**
   * With one available copy of a book titled "A", a search for "Z" lists no
   * copy, yet the page shown holds that copy.
   */
  lemma AvailablePageIgnoresSearch()
    ensures var db := Db([], [], [Category("c", None)],
                         [Book("A", "1", 0, {}, "p", 2000, "en", None)],
                         [BookCopy(0, "b", "s", Available, Good, 0)], [], []);
            0 in AvailableBooksPage(db, None) && 0 !in AvailableBooks(db, "Z", None, None)
  {
    var db := Db([], [], [Category("c", None)],
                 [Book("A", "1", 0, {}, "p", 2000, "en", None)],
                 [BookCopy(0, "b", "s", Available, Good, 0)], [], []);
    var r := AvailableBooksPage(db, None);
    assert 0 in AvailableCopies(db);
    assert r[0] in r;
    assert LowerStr("A") == "a" && LowerStr("1") == "1" && LowerStr("Z") == "z";
    assert !MatchesSearch(db, 0, "Z");
  }

  /** The page of the filtered available-only list: at most six copies, all of which pass the filters. */
  function AvailableFilteredPage(db: Db, q: string, category: Option<nat>, author: Option<nat>,
                                 page: Option<int>): (r: seq<nat>)
    ensures |r| <= PageSize
    ensures AvailableBooks(db, q, category, author) != [] ==> r != []
    ensures forall i: nat :: i in r ==>
              && i < |db.copies| && db.copies[i].status == Available
              && (q == "" || MatchesSearch(db, i, q))
              && (category.None? || InCategory(db, i, category.value))
              && (author.None? || ByAuthor(db, i, author.value))
  {
    Page(AvailableBooks(db, q, category, author), page)
  }

  /** The page the all-copies view shows: at most six copies, all of which pass the filters. */
  function AllBooksPage(db: Db, f: CatalogFilter, page: Option<int>): (r: seq<nat>)
    ensures |r| <= PageSize
    ensures AllBooks(db, f) != [] ==> r != []
    ensures forall i :: i in r ==> i in AllBooks(db, f)
  {
    Page(AllBooks(db, f), page)
  }
}
