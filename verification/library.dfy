/**
 * The staff and member views that change or walk the store: borrowing a
 * copy for a member, returning a loan by title, computing and recording a
 * fine, the member dashboard, and the plain inserts of books, categories,
 * authors and copies. The store is one object whose fields are its tables;
 * each view updates the rows it touches in place.
 */
module Library {
  import opened Wrappers
  import opened Query
  import opened Text
  import opened Models
  import opened Loans

  /** The fields the borrow form submits: a member profile key and a status choice. */
  datatype BorrowForm = BorrowForm(member: nat, status: string)

  datatype BorrowOutcome =
    | InvalidForm
    | Rejected(error: string)
    | Lent(transaction: nat, copy: nat)

  const LimitMessage := "This member already has 3 books issued."
  const NoCopyMessage := "No available copy for this book."

  /** The fields the fine form submits; an `amount` of `None` makes the form invalid. */
  datatype FineForm = FineForm(amount: Option<int>, paid: bool)

  /** The borrow form is valid when it names an existing profile and a status choice. */
  predicate ValidBorrowForm(db: Db, form: BorrowForm) {
    form.member < |db.members| && ParseBorrowStatus(form.status).Some?
  }

  class Database {
    var members: seq<MemberProfile>
    var authors: seq<Author>
    var categories: seq<Category>
    var books: seq<Book>
    var copies: seq<BookCopy>
    var transactions: seq<BorrowTransaction>
    var fines: seq<FinePayment>

    function Snapshot(): Db
      reads this
    {
      Db(members, authors, categories, books, copies, transactions, fines)
    }

    ghost predicate Valid()
      reads this
    {
      Consistent(Snapshot())
    }

    constructor (db: Db)
      requires Consistent(db)
      ensures Valid() && Snapshot() == db
    {
      members := db.members;
      authors := db.authors;
      categories := db.categories;
      books := db.books;
      copies := db.copies;
      transactions := db.transactions;
      fines := db.fines;
    }

    /**
     * Borrow a copy of the book titled `bookName` for the member the form
     * names. The limit check comes before the copy lookup; a rejected request
     * changes nothing. On success one open transaction is appended, due
     * fifteen days from today, whatever status the form carried, and the
     * first matching available copy is marked unavailable.
     */
    method BorrowingBook(form: BorrowForm, bookName: string, today: int) returns (outcome: BorrowOutcome)
      requires Valid()
      modifies this
      ensures Valid()
      ensures outcome == InvalidForm <==> !ValidBorrowForm(old(Snapshot()), form)
      ensures outcome == Rejected(LimitMessage) <==>
                ValidBorrowForm(old(Snapshot()), form)
                && |OpenLoansOf(old(transactions), form.member)| >= MaxOpenLoans
      ensures outcome == Rejected(NoCopyMessage) <==>
                ValidBorrowForm(old(Snapshot()), form)
                && |OpenLoansOf(old(transactions), form.member)| < MaxOpenLoans
                && FirstAvailableCopy(old(Snapshot()), bookName).None?
      ensures outcome.Lent? <==>
                ValidBorrowForm(old(Snapshot()), form)
                && |OpenLoansOf(old(transactions), form.member)| < MaxOpenLoans
                && FirstAvailableCopy(old(Snapshot()), bookName).Some?
      ensures !outcome.Lent? ==> Snapshot() == old(Snapshot())
      ensures outcome.Lent? ==>
                outcome.copy < |old(copies)| && Snapshot() == Lend(old(Snapshot()), form.member, outcome.copy, today)
      ensures outcome.Lent? ==>
                && outcome.copy == FirstAvailableCopy(old(Snapshot()), bookName).value
                && outcome.transaction == |old(transactions)|
                && transactions == old(transactions) + [BorrowTransaction(form.member, outcome.copy, today,
                                                                          today + LoanDays, None, Borrowed)]
                && copies == old(copies)[outcome.copy := old(copies)[outcome.copy].(status := Unavailable)]
                && members == old(members) && authors == old(authors) && categories == old(categories)
                && books == old(books) && fines == old(fines)
    {
      if !ValidBorrowForm(Snapshot(), form) {
        return InvalidForm;
      }
      var countBooks := |OpenLoansOf(transactions, form.member)|;
      if countBooks >= MaxOpenLoans {
        return Rejected(LimitMessage);
      }
      var copy := FirstAvailableCopy(Snapshot(), bookName);
      if copy.None? {
        return Rejected(NoCopyMessage);
      }
      var c := copy.value;
      ghost var before := Snapshot();
      LendKeepsConsistent(before, form.member, c, today);
      ghost var after := Lend(before, form.member, c, today);
      var data := NewLoan(form.member, c, today);
      transactions := transactions + [data];
      copies := copies[c := copies[c].(status := Unavailable)];
      assert transactions == after.transactions && copies == after.copies;
      assert Snapshot() == after;
      outcome := Lent(|transactions| - 1, c);
    }

    /**
     * Return the most recent open loan of the book titled exactly `bookName`:
     * it is marked returned today and its copy becomes available. Without
     * such a loan nothing changes.
     */
    method ReturnBook(bookName: string, today: int) returns (returned: Option<nat>)
      requires Valid()
      modifies this
      ensures Valid()
      ensures returned == LastOpenLoan(old(Snapshot()), bookName)
      ensures returned.None? ==> Snapshot() == old(Snapshot())
      ensures returned.Some? ==>
                returned.value < |old(transactions)| && old(transactions)[returned.value].copy < |old(copies)|
                && Snapshot() == CloseLoan(old(Snapshot()), returned.value, today)
      ensures returned.Some? ==>
                var k := returned.value;
                var c := old(transactions)[k].copy;
                && c < |old(copies)|
                && transactions == old(transactions)[k := old(transactions)[k].(returnedAt := Some(today), status := Returned)]
                && copies == old(copies)[c := old(copies)[c].(status := Available)]
                && members == old(members) && authors == old(authors) && categories == old(categories)
                && books == old(books) && fines == old(fines)
    {
      returned := LastOpenLoan(Snapshot(), bookName);
      if returned.Some? {
        var k := returned.value;
        CloseLoanKeepsConsistent(Snapshot(), k, today);
        var transaction := transactions[k];
        transaction := transaction.(returnedAt := Some(today), status := Returned);
        transactions := transactions[k := transaction];
        var c := transaction.copy;
        copies := copies[c := copies[c].(status := Available)];
      }
    }

    /**
     * The fine view for the book titled exactly `bookName`, which must have an
     * open loan. It computes the fine of the most recent such loan; with a
     * valid submitted form it stores a fine of that amount (not the form's),
     * paid as the form says, and closes the loan. The copy stays as it was.
     */
    method CalculateDaysLate(bookName: string, today: int, post: Option<FineForm>) returns (fine: nat, recorded: bool)
      requires Valid()
      requires LastOpenLoan(Snapshot(), bookName).Some?
      modifies this
      ensures Valid()
      ensures var k := LastOpenLoan(old(Snapshot()), bookName).value;
              fine == FineAmount(today, old(transactions)[k].dueDate)
      ensures recorded <==> post.Some? && post.value.amount.Some?
      ensures !recorded ==> Snapshot() == old(Snapshot())
      ensures recorded ==>
                Snapshot() == RecordFine(old(Snapshot()), LastOpenLoan(old(Snapshot()), bookName).value, post.value.paid, today)
      ensures recorded ==>
                var k := LastOpenLoan(old(Snapshot()), bookName).value;
                && fines == old(fines) + [FinePayment(k, fine, post.value.paid, Some(today))]
                && transactions == old(transactions)[k := old(transactions)[k].(returnedAt := Some(today), status := Returned)]
                && copies == old(copies)
                && members == old(members) && authors == old(authors) && categories == old(categories)
                && books == old(books)
    {
      var k := LastOpenLoan(Snapshot(), bookName).value;
      var book := transactions[k];
      var daysLate := today - book.dueDate;
      if daysLate < 0 {
        daysLate := 0;
      }
      fine := daysLate * FinePerDay;
      recorded := false;
      if post.Some? && post.value.amount.Some? {
        RecordFineKeepsConsistent(Snapshot(), k, post.value.paid, today);
        var f := FinePayment(k, fine, post.value.paid, Some(today));
        fines := fines + [f];
        book := book.(status := Returned, returnedAt := Some(today));
        transactions := transactions[k := book];
        recorded := true;
      }
    }

    /**
     * The dashboard of the member whose login identity is `user`: one row per
     * transaction of that member, in primary-key order.
     */
    method MemberDashboard(user: UserId, today: int) returns (rows: seq<DashboardRow>)
      requires Valid()
      requires ProfileOf(members, user).Some?
      ensures var ids := LoansOfMember(Snapshot(), ProfileOf(members, user).value);
              |rows| == |ids|
              && forall k :: 0 <= k < |rows| ==> RowRefs(Snapshot(), ids[k]) && rows[k] == RowFor(Snapshot(), ids[k], today)
    {
      var memberProfile := ProfileOf(members, user).value;
      var borrowedBooks := LoansOfMember(Snapshot(), memberProfile);
      rows := [];
      for j := 0 to |borrowedBooks|
        invariant |rows| == j
        invariant forall k :: 0 <= k < j ==> RowRefs(Snapshot(), borrowedBooks[k])
                                             && rows[k] == RowFor(Snapshot(), borrowedBooks[k], today)
      {
        var i := borrowedBooks[j];
        var transaction := transactions[i];
        var displayStatus;
        if transaction.status == Borrowed && transaction.dueDate < today {
          displayStatus := "Overdue";
        } else {
          displayStatus := Capitalize(BorrowStatusName(transaction.status));
        }
        var fineAmount := 0;
        var finePaid := "No Fine";
        var fine := FineOf(fines, i);
        if fine.Some? {
          fineAmount := fines[fine.value].amount;
          finePaid := if fines[fine.value].paid then "Paid" else "Unpaid";
        }
        var title := books[copies[transaction.copy].book].title;
        rows := rows + [DashboardRow(title, transaction.borrowedAt, transaction.dueDate,
                                     displayStatus, fineAmount, finePaid)];
      }
    }

    /**
     * Add a book. The form rejects an ISBN already in use, an unknown
     * category, an empty author list or an unknown author.
     */
    method AddNewBook(book: Book) returns (ok: bool)
      requires Valid()
      modifies this
      ensures Valid()
      ensures ok <==> && book.category < |old(categories)|
                      && book.authors != {}
                      && (forall a :: a in book.authors ==> a < |old(authors)|)
                      && (forall b :: 0 <= b < |old(books)| ==> old(books)[b].isbn != book.isbn)
      ensures ok ==> Snapshot() == old(Snapshot()).(books := old(books) + [book])
      ensures !ok ==> Snapshot() == old(Snapshot())
    {
      ok := book.category < |categories| && book.authors != {}
            && (forall a :: a in book.authors ==> a < |authors|)
            && (forall b :: 0 <= b < |books| ==> books[b].isbn != book.isbn);
      if ok {
        AddBookKeepsConsistent(Snapshot(), book);
        books := books + [book];
      }
    }

    method AddCategory(category: Category)
      requires Valid()
      modifies this
      ensures Valid()
      ensures Snapshot() == old(Snapshot()).(categories := old(categories) + [category])
    {
      categories := categories + [category];
    }

    method AddAuthor(author: Author)
      requires Valid()
      modifies this
      ensures Valid()
      ensures Snapshot() == old(Snapshot()).(authors := old(authors) + [author])
    {
      authors := authors + [author];
    }

    /**
     * Add a physical copy. The form rejects a barcode already in use or an
     * unknown book. The stored copy is stamped with today's date whatever
     * date the argument carries, since the form has no date field. A new
     * copy has no transactions.
     */
    method AddCopies(copy: BookCopy, today: int) returns (ok: bool)
      requires Valid()
      modifies this
      ensures Valid()
      ensures ok <==> copy.book < |old(books)|
                      && forall c :: 0 <= c < |old(copies)| ==> old(copies)[c].barcode != copy.barcode
      ensures ok ==> Snapshot() == old(Snapshot()).(copies := old(copies) + [copy.(addedAt := today)])
      ensures ok ==> |OpenLoansOn(transactions, |old(copies)|)| == 0
      ensures !ok ==> Snapshot() == old(Snapshot())
    {
      ok := copy.book < |books| && forall c :: 0 <= c < |copies| ==> copies[c].barcode != copy.barcode;
      if ok {
        var stored := copy.(addedAt := today);
        AddCopyKeepsConsistent(Snapshot(), stored);
        copies := copies + [stored];
      }
    }
  }

  /**
   * Adding a copy of an existing book under a new barcode keeps the store
   * consistent, and no transaction refers to the new copy.
   */
  lemma AddCopyKeepsConsistent(db: Db, copy: BookCopy)
    requires Consistent(db)
    requires copy.book < |db.books|
    requires forall c :: 0 <= c < |db.copies| ==> db.copies[c].barcode != copy.barcode
    ensures Consistent(db.(copies := db.copies + [copy]))
    ensures |OpenLoansOn(db.transactions, |db.copies|)| == 0
  {
    var db' := db.(copies := db.copies + [copy]);
    assert UniqueBarcodes(db'.copies);
    assert References(db');
    forall i | 0 <= i < |db.transactions|
      ensures db'.copies[db.transactions[i].copy] == db.copies[db.transactions[i].copy]
    {
    }
    var txs := db.transactions;
    SelectNone(|txs|, (i: nat) => i < |txs| && IsOpen(txs[i]) && txs[i].copy == |db.copies|);
  }

  /** Adding a book with a new ISBN, a known category and known authors keeps the store consistent. */
  lemma AddBookKeepsConsistent(db: Db, book: Book)
    requires Consistent(db)
    requires book.category < |db.categories| && forall a :: a in book.authors ==> a < |db.authors|
    requires forall b :: 0 <= b < |db.books| ==> db.books[b].isbn != book.isbn
    ensures Consistent(db.(books := db.books + [book]))
  {
    var db' := db.(books := db.books + [book]);
    assert UniqueIsbn(db'.books);
    assert References(db');
    assert LoanInvariant(db');
  }
}
