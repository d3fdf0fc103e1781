# Library loan lifecycle, modelled in Dafny

This project models the loan core of a small library-management web
application (a Django app, `Book_Management`). The application keeps
members, authors, categories, books, physical book copies, borrow
transactions and fine payments, and gates each page by the user's role.

The model covers the following:

- **Store** (`models.dfy`). Every table is a sequence, and a row's primary key is
  its index. The store also has the schema's choice sets and defaults, plus its
  uniqueness and one-to-one constraints (`WellFormed`).
- **Role gate** (`access.dfy`). `role_required` lets a request through only when
  the user has a member profile whose role name is in the view's list. Every
  other request gets "You are not allowed!".
- **Loan lifecycle** (`loans.dfy`):
  - **Borrowing.** A member may hold at most three open loans. A borrow takes
    the first available copy whose title matches, ignoring case. It opens a
    loan due in fifteen days and marks the copy unavailable.
  - **Returning.** A return closes the most recent open loan whose title
    matches exactly, and makes its copy available again.
  - **Fines.** A fine costs 10 per day late. Recording one closes the loan but
    does not free the copy.
  - **Lists and dashboard.** The module also defines the issued-loans and
    overdue-loans staff lists and each row of the member dashboard.
  - **Invariant.** `LoanInvariant` says that no member holds more than three
    open loans and no copy is held by two. The copy of an open loan is
    unavailable. A loan carries a return date exactly when it is returned,
    and a fine only sits on a returned loan. Each transition is proved to
    keep this invariant.
- **Catalog** (`catalog.dfy`). Two list views over copies: "all books" with its
  filters, and "available books". Each is cut into pages of six.
- **Views as methods** (`library.dfy`). The views that change the store are
  methods of one `Database` object whose fields are the tables. Each method
  states its new state in full and keeps `Valid()`, the store invariant. The
  member dashboard is a loop proved to produce `RowFor` for each of the
  member's transactions.
- **Helpers.** `query.dfy` models querysets (`filter`, `first`, `last` in
  primary-key order). `text.dfy` models `iexact`, `icontains` and
  `str.capitalize`.

Dates are whole day numbers. "Today" is passed to every operation that reads
the clock.

### Source behaviour worth noting

- **Membership id.** `membership_id` has no `unique=True` (models.py:9), so
  the model has no uniqueness constraint on it.
- **Fine payment.** The fine form carries `paid` (form.py:43). The stored fine
  takes `paid` from the form and its amount from the computed fine
  (views.py:440-443). No view changes a stored fine afterwards.
- **Fine and copy.** Recording a fine marks the loan returned (views.py:444-446)
  but leaves its copy unavailable.
- **Copy status.** The copy form carries `status` (form.py:62), so a copy can
  be added as unavailable without any loan.
- **Book authors.** `authors` is a many-to-many field without `blank=True`
  (models.py:51), so the book form requires at least one author.
- **Available-books view.** It is gated to Admin and Librarian (views.py:104).
  It builds its paginator before the filters run (views.py:112-128; see
  Findings).
- **Borrow form.** The form's member field accepts any profile (form.py:32),
  not only one with role Member. Only the name-search list on that page is
  restricted to Members (views.py:217).

## Model

| member | source | states |
|---|---|---|
| Models.ParseRole | Book_Management/models.py:8 | a role string is read as a role only when it is that role's stored name |
| Models.RoleNameRoundTrip | Book_Management/models.py:8 | each of the three role choices reads back as itself |
| Models.ParseBorrowStatus | Book_Management/models.py:83 | only "borrowed" and "returned" are status choices, each read as its own status |
| Models.NewProfile | Book_Management/models.py:6-15 | a new profile has role Member, is active, joined today, and keeps the given fields |
| Models.ProfileOf | Book_Management/views.py:288-289 | finds a profile linked to the user, or reports that none is |
| Models.ProfileOfUnique | Book_Management/models.py:7 | under the one-to-one link, the profile found is the only one of that user |
| Access.RoleRequired | Book_Management/decorators.py:4-14 | the view runs iff the user has a profile whose role name is listed; then its answer is returned; otherwise the answer is forbidden with "You are not allowed!" |
| Access.ForbiddenIgnoresView | Book_Management/decorators.py:8-13 | a refused request does not depend on the wrapped view |
| Access.EmptyRolesForbidAll | Book_Management/decorators.py:4 | with the default empty role list every request is refused |
| Access.StaffGate | Book_Management/views.py:215 | the staff views admit exactly Admins and Librarians |
| Access.MemberGate | Book_Management/views.py:286 | the member dashboard admits exactly Members |
| Query.Select | Book_Management/views.py:110 | `filter`: exactly the keys the condition accepts, each once, in increasing order |
| Query.FirstWhere | Book_Management/views.py:244-247 | `first()`: the least accepted key, or none iff no key is accepted |
| Query.LastWhere | Book_Management/views.py:363-365 | `last()`: the greatest accepted key, or none iff no key is accepted |
| Query.Refine | Book_Management/views.py:116-121 | a further `filter` keeps exactly the listed keys the condition accepts |
| Query.RefineIncreasing | Book_Management/views.py:116-128 | a further `filter` keeps primary-key order |
| Query.IncreasingUnique | Book_Management/views.py:110-128 | two querysets in primary-key order with the same keys are equal |
| Text.LowerStr | Book_Management/views.py:245 | ASCII case folding of each character, length kept |
| Text.ContainsIffOccurs | Book_Management/views.py:118-120 | the substring scan succeeds iff the needle occurs at some position |
| Text.Capitalize | Book_Management/views.py:305 | first character upper-cased, the rest lower-cased, length kept |
| Text.CapitalizeLowerTail | Book_Management/views.py:305 | a word with an already lower-case tail capitalises to its first letter upper-cased and the tail unchanged |
| Loans.OpenLoansOfAppend | Book_Management/views.py:230-232 | appending a loan raises a member's open-loan count by one iff it is an open loan of that member |
| Loans.OpenLoansOnAppend | Book_Management/views.py:261-267 | appending a loan raises a copy's open-loan count by one iff it is an open loan of that copy |
| Loans.OpenLoansOfUpdate | Book_Management/views.py:370-372 | rewriting one transaction changes a member's open-loan count only by that transaction's contribution |
| Loans.OpenLoansOnUpdate | Book_Management/views.py:370-376 | rewriting one transaction changes a copy's open-loan count only by that transaction's contribution |
| Loans.OneOpenLoanPerCopy | Book_Management/views.py:244-267 | under the invariant, two open loans of the same copy are the same loan |
| Loans.AvailableCopyIsFree | Book_Management/views.py:244-267 | under the invariant, an available copy is held by no open loan |
| Loans.NewLoan | Book_Management/views.py:261-264 | a new loan is open, unreturned, opened today and due fifteen days later |
| Loans.Lend | Book_Management/views.py:261-267 | a borrow keeps the old loans and appends the new one; the borrowed copy is the same row with only its status set to unavailable; no other copy or table changes |
| Loans.LendCounts | Book_Management/views.py:261-267 | a borrow raises the member's and the copy's open-loan counts by one |
| Loans.CloseLoan | Book_Management/views.py:370-376 | a return sets only the loan's return date (today) and status (returned), and only its copy's status (available); when the loan was open, its member's and copy's open-loan counts drop by one; no other row or table changes |
| Loans.RecordFine | Book_Management/views.py:440-446 | a fine appends one payment for the loan with the computed amount, the given paid flag and today as its payment date; it sets only the loan's return date (today) and status (returned); the open-loan counts drop by one when the loan was open; copies and every other row stay the same |
| Loans.LendKeepsConsistent | Book_Management/views.py:230-267 | lending an available copy to an existing member below the limit keeps the store consistent |
| Loans.CloseLoanKeepsConsistent | Book_Management/views.py:363-376 | returning an open loan keeps the store consistent, and its copy exists |
| Loans.RecordFineKeepsConsistent | Book_Management/views.py:422-446 | recording a fine on an open loan keeps the store consistent, one fine per loan included |
| Loans.RecordFineStrandsCopy | Book_Management/views.py:437-446 | after a fine the loan is closed but its copy stays unavailable with no open loan holding it |
| Loans.FirstAvailableCopy | Book_Management/views.py:244-247 | the least available copy whose book title equals the name ignoring case, or none iff there is none |
| Loans.LastOpenLoan | Book_Management/views.py:363-365 | the most recent open loan whose book title equals the name exactly, or none iff there is none |
| Loans.ReturnLookupWithinBorrowLookup | Book_Management/views.py:244-247 | the title of the loan the return lookup picks also matches the borrow lookup's title test, ignoring case |
| Loans.ReturnLookupIsCaseSensitive | Book_Management/views.py:363-365 | an open loan of "Dune" is found for "Dune" but not "dune", although the borrow lookup equates them |
| Loans.IssuedBooks | Book_Management/views.py:343-346 | exactly the open loans whose member's user name contains the name filter, ignoring case, in order |
| Loans.IsOverdue | Book_Management/views.py:299-302 | a loan is overdue iff it is still open and would accrue a positive fine today |
| Loans.BookOverdue | Book_Management/views.py:396-401 | exactly the open loans past their due date whose member's user name matches, in order |
| Loans.OverdueIsIssuedPastDue | Book_Management/views.py:396-401 | the overdue list is the issued list restricted to loans past due, order kept |
| Loans.NewLoanOverdueFrom | Book_Management/views.py:396-398 | a new loan is overdue exactly from the sixteenth day on |
| Loans.DaysLate | Book_Management/views.py:429-432 | zero iff not past due; otherwise due date plus days late is today |
| Loans.FineAmount | Book_Management/views.py:429-434 | ten per day late; zero iff not past due |
| Loans.FineAccruesDaily | Book_Management/views.py:429-434 | each further day past the due date adds ten |
| Loans.FineExample | Book_Management/views.py:429-434 | a loan fined nineteen days after it opened is four days late and owes 40 |
| Loans.StatusCaptions | Book_Management/views.py:305 | the stored statuses capitalise to "Borrowed" and "Returned" |
| Loans.DisplayStatus | Book_Management/views.py:299-305 | "Overdue" iff the loan is overdue, else the capitalised status |
| Loans.FineOf | Book_Management/views.py:311-317 | the fine attached to a transaction, or none iff no fine refers to it |
| Loans.LoansOfMember | Book_Management/views.py:291-293 | exactly the transactions of the member's profile, each once and in primary-key order |
| Loans.RowFor | Book_Management/views.py:297-328 | a dashboard row holds the title and dates, "Overdue" iff overdue, and "No Fine" with amount 0 iff there is no fine; the status otherwise is the capitalised stored status; with a fine, the fine's amount and "Paid" or "Unpaid" as it is paid or not |
| Loans.DashboardAgreesWithOverdueList | Book_Management/views.py:299-303 | the dashboard shows "Overdue" exactly for loans on the unfiltered overdue list |
| Loans.FinedLoanShowsReturned | Book_Management/views.py:311-314 | in a consistent store a fined loan shows as returned, with its fine |
| Loans.MemberChoices | Book_Management/views.py:217-220 | exactly the profiles with role Member whose user name matches the name filter, in order |
| Catalog.AllCopies | Book_Management/views.py:152 | every copy, once, in primary-key order |
| Catalog.FilterIf | Book_Management/views.py:161-175 | a filter applied only when its parameter was supplied |
| Catalog.AllBooks | Book_Management/views.py:152-175 | a copy is listed iff it passes each supplied filter: search on title, author name or ISBN; category; availability; author |
| Catalog.FilterIfIncreasing | Book_Management/views.py:161-175 | an optional filter keeps primary-key order |
| Catalog.AllBooksIncreasing | Book_Management/views.py:152-175 | the all-copies list is in primary-key order |
| Catalog.UnfilteredListsEveryCopy | Book_Management/views.py:152-175 | with no filter supplied the list is every copy |
| Catalog.AvailableCopies | Book_Management/views.py:110 | exactly the available copies, in order |
| Catalog.AvailableBooks | Book_Management/views.py:110-128 | a copy is listed iff it is available and passes the supplied search, category and author filters |
| Catalog.AvailableIsAllFilteredOnStatus | Book_Management/views.py:110-128 | the available-only list equals the all-copies list filtered on availability "available", order included |
| Catalog.PageCount | Book_Management/views.py:179-181 | at least one page, and exactly one for an empty list; the pages hold every item, and the last page is not empty |
| Catalog.PageNumber | Book_Management/views.py:180-181 | a page number in range is kept; a missing one gives the first page, one out of range gives the last |
| Catalog.Page | Book_Management/views.py:179-181 | at most six items, all drawn from the list, and some item when the list has any |
| Catalog.ItemOnItsPage | Book_Management/views.py:179-181 | item k of the list is item k mod 6 of page k div 6 + 1 |
| Catalog.AvailableBooksPage | Book_Management/views.py:110-114 | the available view's page: at most six available copies, and some copy whenever a copy is available |
| Catalog.AvailablePageIgnoresSearch | Book_Management/views.py:110-121 | a search that lists no copy can still show a page holding a copy |
| Catalog.AvailableFilteredPage | Book_Management/views.py:110-128 | at most six copies, all passing the available view's filters, and some copy when the filtered list has any |
| Catalog.AllBooksPage | Book_Management/views.py:178-181 | at most six copies, all on the filtered list, and some copy when that list has any |
| Library.Database.BorrowingBook | Book_Management/views.py:222-269 | an invalid form, the three-loan limit (checked first) and a missing copy each leave the store unchanged; otherwise one loan due in fifteen days is appended and the chosen copy alone becomes unavailable, so the new store is `Lend` of the old; the store invariant is kept |
| Library.Database.ReturnBook | Book_Management/views.py:362-378 | with no open loan of that title nothing changes; otherwise that loan is marked returned today and its copy alone becomes available, so the new store is `CloseLoan` of the old; the store invariant is kept |
| Library.Database.CalculateDaysLate | Book_Management/views.py:421-451 | computes the fine of the title's most recent open loan; a valid submitted form stores a fine of that amount with the form's paid flag and closes the loan, leaving copies untouched, so the new store is `RecordFine` of the old; otherwise nothing changes |
| Library.Database.MemberDashboard | Book_Management/views.py:287-330 | one row per transaction of the user's profile, in order, each equal to `RowFor` |
| Library.Database.AddNewBook | Book_Management/views.py:459-468 | the book is added iff its ISBN is new, its category exists and its author list is non-empty and known; otherwise nothing changes |
| Library.Database.AddCategory | Book_Management/views.py:480-489 | the category is appended and nothing else changes |
| Library.Database.AddAuthor | Book_Management/views.py:501-510 | the author is appended and nothing else changes |
| Library.Database.AddCopies | Book_Management/views.py:537-545 | the copy is added iff its book exists and its barcode is new, stamped with today's date; a new copy has no open loan |
| Library.AddCopyKeepsConsistent | Book_Management/views.py:537-545 | adding a copy of an existing book under a new barcode keeps the store consistent, and no loan refers to the new copy |
| Library.AddBookKeepsConsistent | Book_Management/views.py:459-468 | adding a book with a new ISBN, a known category and known authors keeps the store consistent |

## Left out

- Registration, login and logout (`register_user`, `login_user`, `logout_user`) are left out. They belong to the framework's authentication, not to the loan core. A user's name is carried on the profile (`MemberProfile.username`) instead of a separate user table.
- `login_required` is not modelled. The role gate alone decides access, and a user without a profile is refused by it.
- Rendering, redirects, flash messages and the values passed only to templates are left out. So are the `main` page and the GET form of each view. The borrow view's two error strings are kept.
- Role strings outside the three choices are not modelled, because a role is a `Role` value. The login view's `strip()` is not modelled either.
- Case folding is ASCII only, as SQLite's `LIKE` does it. Unicode case folding is not modelled.
- Joins over the book-author relation can return a copy twice when several authors match. The model lists each copy once.
- A `category` or `author` parameter that is not a number makes the id lookup raise `ValueError` before any query runs. The model takes these parameters as optional keys, so that failure is not modelled.
- Form field lengths, required text fields and date parsing are not modelled. Form validity is modelled only where it decides an outcome: the borrow form's member and status, the fine form's amount, and the book and copy forms' keys and uniqueness.
- Library.Database.CalculateDaysLate: requires an open loan for the title. Without one the source dereferences a missing row and fails, and that failure is not modelled.
- Dates are day numbers. Calendar arithmetic and time zones are not modelled.
- Concurrent requests and the database's transaction isolation are not modelled. Every view runs alone against the store.
- The paginator's handling of non-numeric page numbers is not modelled. They are taken as `None`, which gives the first page, just as the framework does.
- Deletion and cascades are not modelled; no view deletes.
- Order of iterated querysets: the lists at views.py:110, 152, 217, 291, 343 and 396 have no `order_by` and the models declare no default ordering, so the database decides their order and which six copies a page holds. The model fixes primary-key order for them. Only `.first()` and `.last()` order by primary key in the source. The rows above that say "in order" or "order kept" speak of that modelled order.
- Nothing sets a stored fine's `paid` flag after it is created, and the model adds no such operation.

## Findings

| source | as written | input that shows it | evidently intended | confidence | as-written member | corrected member |
|---|---|---|---|---|---|---|
| Book_Management/views.py:110-128 | `available_books` builds its paginator from all available copies before the search, category and author filters run, so the page shown ignores them | one available copy of a book titled "A", search `q=Z`: the filtered list is empty but the page holds the copy | paginate the filtered list, as `all_books` does at lines 178-181 | high (not executed) | Catalog.AvailablePageIgnoresSearch | Catalog.AvailableFilteredPage |
