/**
 * The loan lifecycle over the store: open loans and the limits on them, the
 * store after a borrow, a return and a recorded fine, the title lookups that
 * choose what those act on, the overdue and issued-loan lists, the fine
 * arithmetic and the rows of the member dashboard.
 */
module Loans {
  import opened Wrappers
  import opened Query
  import opened Text
  import opened Models

  /** A member may hold this many open loans at once. */
  const MaxOpenLoans: nat := 3
  /** A loan is due this many days after it was opened. */
  const LoanDays: nat := 15
  /** Fine per day past the due date. */
  const FinePerDay: nat := 10

  predicate IsOpen(t: BorrowTransaction) {
    t.status == Borrowed
  }

  /** `BorrowTransaction.objects.filter(member=m, status="borrowed")`. */
  function OpenLoansOf(txs: seq<BorrowTransaction>, m: nat): seq<nat> {
    Select(|txs|, (i: nat) => i < |txs| && IsOpen(txs[i]) && txs[i].member == m)
  }

  /** The open transactions that hold copy `c`. */
  function OpenLoansOn(txs: seq<BorrowTransaction>, c: nat): seq<nat> {
    Select(|txs|, (i: nat) => i < |txs| && IsOpen(txs[i]) && txs[i].copy == c)
  }

  /**
   * The store's loan invariant: no member holds more than three open loans,
   * no copy is held by two open loans, the copy of an open loan is marked
   * unavailable, a loan carries a return date exactly when it is returned,
   * and a fine is only ever attached to a returned loan.
   */
  ghost predicate LoanInvariant(db: Db) {
    && (forall m: nat :: |OpenLoansOf(db.transactions, m)| <= MaxOpenLoans)
    && (forall c: nat :: |OpenLoansOn(db.transactions, c)| <= 1)
    && (forall i :: 0 <= i < |db.transactions| && IsOpen(db.transactions[i]) ==>
          db.transactions[i].copy < |db.copies| && db.copies[db.transactions[i].copy].status == Unavailable)
    && (forall i :: 0 <= i < |db.transactions| ==>
          (db.transactions[i].status == Returned <==> db.transactions[i].returnedAt.Some?))
    && (forall f :: 0 <= f < |db.fines| ==>
          db.fines[f].transaction < |db.transactions| && db.transactions[db.fines[f].transaction].status == Returned)
  }

  ghost predicate Consistent(db: Db) {
    WellFormed(db) && LoanInvariant(db)
  }

  // ---------------------------------------------------------------------
  // Counting open loans

  lemma OpenLoansOfAppend(txs: seq<BorrowTransaction>, t: BorrowTransaction, m: nat)
    ensures |OpenLoansOf(txs + [t], m)| == |OpenLoansOf(txs, m)| + (if IsOpen(t) && t.member == m then 1 else 0)
  {
    var s := txs + [t];
    SelectExt(|txs|, (i: nat) => i < |s| && IsOpen(s[i]) && s[i].member == m,
                     (i: nat) => i < |txs| && IsOpen(txs[i]) && txs[i].member == m);
  }

  lemma OpenLoansOnAppend(txs: seq<BorrowTransaction>, t: BorrowTransaction, c: nat)
    ensures |OpenLoansOn(txs + [t], c)| == |OpenLoansOn(txs, c)| + (if IsOpen(t) && t.copy == c then 1 else 0)
  {
    var s := txs + [t];
    SelectExt(|txs|, (i: nat) => i < |s| && IsOpen(s[i]) && s[i].copy == c,
                     (i: nat) => i < |txs| && IsOpen(txs[i]) && txs[i].copy == c);
  }

  lemma OpenLoansOfUpdate(txs: seq<BorrowTransaction>, k: nat, t: BorrowTransaction, m: nat)
    requires k < |txs|
    ensures |OpenLoansOf(txs[k := t], m)| + (if IsOpen(txs[k]) && txs[k].member == m then 1 else 0)
         == |OpenLoansOf(txs, m)| + (if IsOpen(t) && t.member == m then 1 else 0)
  {
    var s := txs[k := t];
    SelectPointChange(|txs|, (i: nat) => i < |s| && IsOpen(s[i]) && s[i].member == m,
                             (i: nat) => i < |txs| && IsOpen(txs[i]) && txs[i].member == m, k);
  }

  lemma OpenLoansOnUpdate(txs: seq<BorrowTransaction>, k: nat, t: BorrowTransaction, c: nat)
    requires k < |txs|
    ensures |OpenLoansOn(txs[k := t], c)| + (if IsOpen(txs[k]) && txs[k].copy == c then 1 else 0)
         == |OpenLoansOn(txs, c)| + (if IsOpen(t) && t.copy == c then 1 else 0)
  {
    var s := txs[k := t];
    SelectPointChange(|txs|, (i: nat) => i < |s| && IsOpen(s[i]) && s[i].copy == c,
                             (i: nat) => i < |txs| && IsOpen(txs[i]) && txs[i].copy == c, k);
  }

  /** Two open loans on the same copy are the same loan. */
  lemma OneOpenLoanPerCopy(db: Db, i: nat, j: nat)
    requires LoanInvariant(db)
    requires i < |db.transactions| && IsOpen(db.transactions[i])
    requires j < |db.transactions| && IsOpen(db.transactions[j])
    ensures db.transactions[i].copy == db.transactions[j].copy ==> i == j
  {
    var txs := db.transactions;
    var c := txs[i].copy;
    assert |OpenLoansOn(txs, c)| <= 1;
    if txs[j].copy == c {
      SelectAtMostOne(|txs|, (x: nat) => x < |txs| && IsOpen(txs[x]) && txs[x].copy == c, i, j);
    }
  }

  /** An available copy is held by no open loan. */
  lemma AvailableCopyIsFree(db: Db, c: nat)
    requires LoanInvariant(db)
    requires c < |db.copies| && db.copies[c].status == Available
    ensures |OpenLoansOn(db.transactions, c)| == 0
  {
    var txs := db.transactions;
    SelectNone(|txs|, (i: nat) => i < |txs| && IsOpen(txs[i]) && txs[i].copy == c);
  }

  // ---------------------------------------------------------------------
  // The three transitions

  /** The transaction a successful borrow creates. */
  function NewLoan(member: nat, copy: nat, today: int): (t: BorrowTransaction)
    ensures IsOpen(t) && t.returnedAt == None
    ensures t.member == member && t.copy == copy
    ensures t.borrowedAt == today && t.dueDate == t.borrowedAt + LoanDays
  {
    BorrowTransaction(member, copy, today, today + LoanDays, None, Borrowed)
  }

  /** A transaction marked returned on `today`. */
  function Close(t: BorrowTransaction, today: int): BorrowTransaction {
    t.(returnedAt := Some(today), status := Returned)
  }

  /** The store after member `m` borrows copy `c`. */
  function Lend(db: Db, m: nat, c: nat, today: int): (r: Db)
    requires c < |db.copies|
    ensures |r.transactions| == |db.transactions| + 1
    ensures r.transactions[..|db.transactions|] == db.transactions
    ensures r.transactions[|db.transactions|] == NewLoan(m, c, today)
    ensures |r.copies| == |db.copies| && r.copies[c] == db.copies[c].(status := Unavailable)
    ensures forall j :: 0 <= j < |db.copies| && j != c ==> r.copies[j] == db.copies[j]
    ensures r.members == db.members && r.authors == db.authors && r.categories == db.categories
    ensures r.books == db.books && r.fines == db.fines
  {
    db.(transactions := db.transactions + [NewLoan(m, c, today)],
        copies := db.copies[c := db.copies[c].(status := Unavailable)])
  }

  /** A borrow raises the borrowing member's and the borrowed copy's open-loan counts by one. */
  lemma LendCounts(db: Db, m: nat, c: nat, today: int)
    requires c < |db.copies|
    ensures |OpenLoansOf(Lend(db, m, c, today).transactions, m)| == |OpenLoansOf(db.transactions, m)| + 1
    ensures |OpenLoansOn(Lend(db, m, c, today).transactions, c)| == |OpenLoansOn(db.transactions, c)| + 1
  {
    OpenLoansOfAppend(db.transactions, NewLoan(m, c, today), m);
    OpenLoansOnAppend(db.transactions, NewLoan(m, c, today), c);
  }

  /** The store after transaction `k` is returned: the loan closes and its copy is freed. */
  function CloseLoan(db: Db, k: nat, today: int): (r: Db)
    requires k < |db.transactions| && db.transactions[k].copy < |db.copies|
    ensures var t := db.transactions[k];
            IsOpen(t) ==> |OpenLoansOf(r.transactions, t.member)| + 1 == |OpenLoansOf(db.transactions, t.member)|
    ensures var t := db.transactions[k];
            IsOpen(t) ==> |OpenLoansOn(r.transactions, t.copy)| + 1 == |OpenLoansOn(db.transactions, t.copy)|
    ensures |r.transactions| == |db.transactions|
    ensures r.transactions[k] == db.transactions[k].(returnedAt := Some(today), status := Returned)
    ensures forall j :: 0 <= j < |db.transactions| && j != k ==> r.transactions[j] == db.transactions[j]
    ensures |r.copies| == |db.copies|
    ensures r.copies[db.transactions[k].copy] == db.copies[db.transactions[k].copy].(status := Available)
    ensures forall j :: 0 <= j < |db.copies| && j != db.transactions[k].copy ==> r.copies[j] == db.copies[j]
    ensures r.members == db.members && r.authors == db.authors && r.categories == db.categories
    ensures r.books == db.books && r.fines == db.fines
  {
    var t := db.transactions[k];
    OpenLoansOfUpdate(db.transactions, k, Close(t, today), t.member);
    OpenLoansOnUpdate(db.transactions, k, Close(t, today), t.copy);
    db.(transactions := db.transactions[k := Close(t, today)],
        copies := db.copies[t.copy := db.copies[t.copy].(status := Available)])
  }

  /**
   * The store after a fine is recorded against transaction `k`: a fine of the
   * computed amount is attached and the loan closes; the copy is not touched.
   */
  function RecordFine(db: Db, k: nat, paid: bool, today: int): (r: Db)
    requires k < |db.transactions|
    ensures var t := db.transactions[k];
            IsOpen(t) ==> |OpenLoansOf(r.transactions, t.member)| + 1 == |OpenLoansOf(db.transactions, t.member)|
    ensures var t := db.transactions[k];
            IsOpen(t) ==> |OpenLoansOn(r.transactions, t.copy)| + 1 == |OpenLoansOn(db.transactions, t.copy)|
    ensures r.fines == db.fines + [FinePayment(k, FineAmount(today, db.transactions[k].dueDate), paid, Some(today))]
    ensures |r.transactions| == |db.transactions|
    ensures r.transactions[k] == db.transactions[k].(returnedAt := Some(today), status := Returned)
    ensures forall j :: 0 <= j < |db.transactions| && j != k ==> r.transactions[j] == db.transactions[j]
    ensures r.copies == db.copies && r.members == db.members && r.authors == db.authors
    ensures r.categories == db.categories && r.books == db.books
  {
    var t := db.transactions[k];
    OpenLoansOfUpdate(db.transactions, k, Close(t, today), t.member);
    OpenLoansOnUpdate(db.transactions, k, Close(t, today), t.copy);
    db.(fines := db.fines + [FinePayment(k, FineAmount(today, t.dueDate), paid, Some(today))],
        transactions := db.transactions[k := Close(t, today)])
  }

  /** A borrow within the limit, of an available copy, keeps the store consistent. */
  lemma LendKeepsConsistent(db: Db, m: nat, c: nat, today: int)
    requires Consistent(db)
    requires m < |db.members| && c < |db.copies|
    requires db.copies[c].status == Available
    requires |OpenLoansOf(db.transactions, m)| < MaxOpenLoans
    ensures Consistent(Lend(db, m, c, today))
  {
    LendWellFormed(db, m, c, today);
    LendKeepsLimits(db, m, c, today);
    LendKeepsLoanFacts(db, m, c, today);
  }

  /** The per-row clauses of the loan invariant survive a borrow of an existing copy. */
  lemma LendKeepsLoanFacts(db: Db, m: nat, c: nat, today: int)
    requires c < |db.copies|
    requires forall i :: 0 <= i < |db.transactions| && IsOpen(db.transactions[i]) ==>
               db.transactions[i].copy < |db.copies| && db.copies[db.transactions[i].copy].status == Unavailable
    requires forall i :: 0 <= i < |db.transactions| ==>
               (db.transactions[i].status == Returned <==> db.transactions[i].returnedAt.Some?)
    requires forall f :: 0 <= f < |db.fines| ==>
               db.fines[f].transaction < |db.transactions| && db.transactions[db.fines[f].transaction].status == Returned
    ensures var db' := Lend(db, m, c, today);
            forall i :: 0 <= i < |db'.transactions| && IsOpen(db'.transactions[i]) ==>
              db'.transactions[i].copy < |db'.copies| && db'.copies[db'.transactions[i].copy].status == Unavailable
    ensures var db' := Lend(db, m, c, today);
            forall i :: 0 <= i < |db'.transactions| ==>
              (db'.transactions[i].status == Returned <==> db'.transactions[i].returnedAt.Some?)
    ensures var db' := Lend(db, m, c, today);
            forall f :: 0 <= f < |db'.fines| ==>
              db'.fines[f].transaction < |db'.transactions| && db'.transactions[db'.fines[f].transaction].status == Returned
  {
    var db' := Lend(db, m, c, today);
    var txs := db.transactions;
    assert db'.transactions == txs + [NewLoan(m, c, today)];
    forall i | 0 <= i < |db'.transactions| && IsOpen(db'.transactions[i])
      ensures db'.transactions[i].copy < |db'.copies| && db'.copies[db'.transactions[i].copy].status == Unavailable
    {
      if i < |txs| {
        assert db'.transactions[i] == txs[i];
      }
    }
    forall i | 0 <= i < |db'.transactions|
      ensures db'.transactions[i].status == Returned <==> db'.transactions[i].returnedAt.Some?
    {
      if i < |txs| {
        assert db'.transactions[i] == txs[i];
      }
    }
    forall f | 0 <= f < |db'.fines|
      ensures db'.fines[f].transaction < |db'.transactions|
              && db'.transactions[db'.fines[f].transaction].status == Returned
    {
      assert db'.transactions[db.fines[f].transaction] == txs[db.fines[f].transaction];
    }
  }

  /** A borrow within the limit, of a copy no open loan holds, keeps both loan limits. */
  lemma LendKeepsLimits(db: Db, m: nat, c: nat, today: int)
    requires LoanInvariant(db)
    requires c < |db.copies| && db.copies[c].status == Available
    requires |OpenLoansOf(db.transactions, m)| < MaxOpenLoans
    ensures forall m': nat :: |OpenLoansOf(Lend(db, m, c, today).transactions, m')| <= MaxOpenLoans
    ensures forall c': nat :: |OpenLoansOn(Lend(db, m, c, today).transactions, c')| <= 1
  {
    var txs := db.transactions;
    var t := NewLoan(m, c, today);
    assert Lend(db, m, c, today).transactions == txs + [t];
    forall m': nat
      ensures |OpenLoansOf(txs + [t], m')| <= MaxOpenLoans
    {
      OpenLoansOfAppend(txs, t, m');
    }
    AvailableCopyIsFree(db, c);
    forall c': nat
      ensures |OpenLoansOn(txs + [t], c')| <= 1
    {
      OpenLoansOnAppend(txs, t, c');
    }
  }

  /** A borrow by an existing member of an existing copy keeps the schema constraints. */
  lemma LendWellFormed(db: Db, m: nat, c: nat, today: int)
    requires WellFormed(db)
    requires m < |db.members| && c < |db.copies|
    ensures WellFormed(Lend(db, m, c, today))
  {
    var db' := Lend(db, m, c, today);
    assert forall j :: 0 <= j < |db.copies| ==>
      db'.copies[j].barcode == db.copies[j].barcode && db'.copies[j].book == db.copies[j].book;
  }

  /** Returning an open loan keeps the store consistent. */
  lemma CloseLoanKeepsConsistent(db: Db, k: nat, today: int)
    requires Consistent(db)
    requires k < |db.transactions| && IsOpen(db.transactions[k])
    ensures db.transactions[k].copy < |db.copies|
    ensures Consistent(CloseLoan(db, k, today))
  {
    var txs := db.transactions;
    var t := txs[k];
    var db' := CloseLoan(db, k, today);
    assert forall j :: 0 <= j < |db.copies| ==>
      db'.copies[j].barcode == db.copies[j].barcode && db'.copies[j].book == db.copies[j].book;
    assert WellFormed(db');
    forall m: nat
      ensures |OpenLoansOf(db'.transactions, m)| <= MaxOpenLoans
    {
      OpenLoansOfUpdate(txs, k, Close(t, today), m);
    }
    forall c: nat
      ensures |OpenLoansOn(db'.transactions, c)| <= 1
    {
      OpenLoansOnUpdate(txs, k, Close(t, today), c);
    }
    forall i | 0 <= i < |db'.transactions| && IsOpen(db'.transactions[i])
      ensures db'.copies[db'.transactions[i].copy].status == Unavailable
    {
      OneOpenLoanPerCopy(db, i, k);
    }
  }

  /** A fine on a loan that has none yet keeps the schema constraints, one fine per loan included. */
  lemma RecordFineWellFormed(db: Db, k: nat, paid: bool, today: int)
    requires WellFormed(db)
    requires k < |db.transactions|
    requires forall f :: 0 <= f < |db.fines| ==> db.fines[f].transaction != k
    ensures WellFormed(RecordFine(db, k, paid, today))
  {
    var db' := RecordFine(db, k, paid, today);
    assert forall j :: 0 <= j < |db.transactions| ==>
      db'.transactions[j].member == db.transactions[j].member && db'.transactions[j].copy == db.transactions[j].copy;
  }

  /** Recording a fine against an open loan keeps the store consistent. */
  lemma RecordFineKeepsConsistent(db: Db, k: nat, paid: bool, today: int)
    requires Consistent(db)
    requires k < |db.transactions| && IsOpen(db.transactions[k])
    ensures Consistent(RecordFine(db, k, paid, today))
  {
    var txs := db.transactions;
    var t := txs[k];
    var db' := RecordFine(db, k, paid, today);
    assert forall f :: 0 <= f < |db.fines| ==> db.fines[f].transaction != k;
    RecordFineWellFormed(db, k, paid, today);
    forall m: nat
      ensures |OpenLoansOf(db'.transactions, m)| <= MaxOpenLoans
    {
      OpenLoansOfUpdate(txs, k, Close(t, today), m);
    }
    forall c: nat
      ensures |OpenLoansOn(db'.transactions, c)| <= 1
    {
      OpenLoansOnUpdate(txs, k, Close(t, today), c);
    }
  }

  /**
   * Recording a fine closes the loan but leaves its copy marked unavailable,
   * although no open loan holds it any more.
   */
  lemma RecordFineStrandsCopy(db: Db, k: nat, paid: bool, today: int)
    requires Consistent(db)
    requires k < |db.transactions| && IsOpen(db.transactions[k])
    ensures var c := db.transactions[k].copy;
            var db' := RecordFine(db, k, paid, today);
            c < |db'.copies| && db'.copies[c].status == Unavailable
            && |OpenLoansOn(db'.transactions, c)| == 0
  {
    var c := db.transactions[k].copy;
    OpenLoansOnUpdate(db.transactions, k, Close(db.transactions[k], today), c);
    assert k in OpenLoansOn(db.transactions, c);
  }

  // ---------------------------------------------------------------------
  // Title lookups

  /** Copy `i` is available and belongs to a book titled `title`, ignoring case. */
  predicate LendableCopy(db: Db, i: nat, title: string) {
    && i < |db.copies|
    && db.copies[i].status == Available
    && db.copies[i].book < |db.books|
    && EqualsIgnoreCase(db.books[db.copies[i].book].title, title)
  }

  /** `BookCopy.objects.filter(book__title__iexact=title, status__iexact="available").first()`. */
  function FirstAvailableCopy(db: Db, title: string): (o: Option<nat>)
    ensures o.Some? ==> LendableCopy(db, o.value, title)
    ensures o.Some? ==> forall j :: 0 <= j < o.value ==> !LendableCopy(db, j, title)
    ensures o.None? ==> forall j :: 0 <= j < |db.copies| ==> !LendableCopy(db, j, title)
  {
    var lendable := (i: nat) => LendableCopy(db, i, title);
    assert forall j :: 0 <= j < |db.copies| ==> lendable(j) == LendableCopy(db, j, title);
    FirstWhere(|db.copies|, lendable)
  }

  /** Transaction `i` is open and its copy's book is titled exactly `title`. */
  predicate OpenLoanTitled(db: Db, i: nat, title: string) {
    && i < |db.transactions|
    && IsOpen(db.transactions[i])
    && db.transactions[i].copy < |db.copies|
    && db.copies[db.transactions[i].copy].book < |db.books|
    && db.books[db.copies[db.transactions[i].copy].book].title == title
  }

  /** `BorrowTransaction.objects.filter(book_copy__book__title=title, status="borrowed").last()`. */
  function LastOpenLoan(db: Db, title: string): (o: Option<nat>)
    ensures o.Some? ==> OpenLoanTitled(db, o.value, title)
    ensures o.Some? ==> forall j :: o.value < j < |db.transactions| ==> !OpenLoanTitled(db, j, title)
    ensures o.None? ==> forall j :: 0 <= j < |db.transactions| ==> !OpenLoanTitled(db, j, title)
  {
    var titled := (i: nat) => OpenLoanTitled(db, i, title);
    assert forall j :: 0 <= j < |db.transactions| ==> titled(j) == OpenLoanTitled(db, j, title);
    LastWhere(|db.transactions|, titled)
  }

  /**
   * The title of the loan the return lookup picks also matches the borrow
   * lookup: the exact match there implies the case-insensitive one here.
   */
  lemma ReturnLookupWithinBorrowLookup(db: Db, title: string)
    requires LastOpenLoan(db, title).Some?
    ensures var t := db.transactions[LastOpenLoan(db, title).value];
            t.copy < |db.copies| && db.copies[t.copy].book < |db.books|
            && EqualsIgnoreCase(db.books[db.copies[t.copy].book].title, title)
  {
  }

  /** The return lookup matches case-sensitively where the borrow lookup does not. */
  lemma ReturnLookupIsCaseSensitive(db: Db, k: nat)
    requires k < |db.transactions| && IsOpen(db.transactions[k])
    requires db.transactions[k].copy < |db.copies| && db.copies[db.transactions[k].copy].book < |db.books|
    requires db.books[db.copies[db.transactions[k].copy].book].title == "Dune"
    ensures OpenLoanTitled(db, k, "Dune") && !OpenLoanTitled(db, k, "dune")
    ensures EqualsIgnoreCase("Dune", "dune")
  {
    assert LowerStr("Dune") == ['d'] + LowerStr("une");
    assert LowerStr("dune") == ['d'] + LowerStr("une");
  }

  // ---------------------------------------------------------------------
  // Overdue and issued loans

  /** A loan is overdue when it is still open and its due date has passed. */
  predicate IsOverdue(t: BorrowTransaction, today: int)
    ensures IsOverdue(t, today) <==> IsOpen(t) && FineAmount(today, t.dueDate) > 0
  {
    t.status == Borrowed && t.dueDate < today
  }

  /** The optional member-name filter of the staff loan lists (`member__user__username__icontains`). */
  predicate MemberNameMatches(db: Db, i: nat, name: string) {
    name == ""
    || (i < |db.transactions| && db.transactions[i].member < |db.members|
        && ContainsIgnoreCase(db.members[db.transactions[i].member].username, name))
  }

  /** The loans listed as issued: open, and of a member whose user name matches `name`. */
  function IssuedBooks(db: Db, name: string): (r: seq<nat>)
    ensures Increasing(r)
    ensures forall k :: 0 <= k < |r| ==> r[k] < |db.transactions|
    ensures forall i :: 0 <= i < |db.transactions| ==>
              (i in r <==> IsOpen(db.transactions[i]) && MemberNameMatches(db, i, name))
  {
    var issued := (i: nat) => i < |db.transactions| && IsOpen(db.transactions[i]) && MemberNameMatches(db, i, name);
    assert forall i :: 0 <= i < |db.transactions| ==>
      issued(i) == (IsOpen(db.transactions[i]) && MemberNameMatches(db, i, name));
    Select(|db.transactions|, issued)
  }

  /** The loans listed as overdue: open, past due, and of a member whose user name matches `name`. */
  function BookOverdue(db: Db, today: int, name: string): (r: seq<nat>)
    ensures Increasing(r)
    ensures forall k :: 0 <= k < |r| ==> r[k] < |db.transactions|
    ensures forall i :: 0 <= i < |db.transactions| ==>
              (i in r <==> IsOverdue(db.transactions[i], today) && MemberNameMatches(db, i, name))
  {
    var late := (i: nat) => i < |db.transactions| && db.transactions[i].status == Borrowed
                            && db.transactions[i].dueDate < today && MemberNameMatches(db, i, name);
    assert forall i :: 0 <= i < |db.transactions| ==>
      late(i) == (IsOverdue(db.transactions[i], today) && MemberNameMatches(db, i, name));
    Select(|db.transactions|, late)
  }

  /** The overdue list is the part of the issued list that is past due, in the same order. */
  lemma {:induction false} OverdueIsIssuedPastDue(db: Db, today: int, name: string)
    ensures BookOverdue(db, today, name)
         == Select(|db.transactions|, (i: nat) => i < |db.transactions| && i in IssuedBooks(db, name)
                                                  && db.transactions[i].dueDate < today)
  {
    var issued := IssuedBooks(db, name);
    SelectExt(|db.transactions|,
      (i: nat) => i < |db.transactions| && db.transactions[i].status == Borrowed
                  && db.transactions[i].dueDate < today && MemberNameMatches(db, i, name),
      (i: nat) => i < |db.transactions| && i in issued && db.transactions[i].dueDate < today);
  }

  /** A loan just opened is not overdue through its due date, and is overdue every day after while open. */
  lemma NewLoanOverdueFrom(member: nat, copy: nat, day: int, today: int)
    ensures IsOverdue(NewLoan(member, copy, day), today) <==> today > day + LoanDays
    ensures !IsOverdue(NewLoan(member, copy, day), day + LoanDays)
  {
  }

  // ---------------------------------------------------------------------
  // Fines

  /** Whole days past the due date, zero when not past due. */
  function DaysLate(today: int, due: int): (d: nat)
    ensures d == 0 <==> today <= due
    ensures today > due ==> due + d == today
  {
    if today - due < 0 then 0 else today - due
  }

  /** The fine for a loan due on `due`, computed on `today`. */
  function FineAmount(today: int, due: int): (f: nat)
    ensures f == 0 <==> today <= due
    ensures f == DaysLate(today, due) * FinePerDay
  {
    var d := DaysLate(today, due);
    d * FinePerDay
  }

  /** Each further day past the due date adds the daily rate; before it nothing accrues. */
  lemma FineAccruesDaily(today: int, due: int)
    ensures FineAmount(today + 1, due) == FineAmount(today, due) + (if today >= due then FinePerDay else 0)
  {
  }

  /** A loan opened on day `d` and fined on day `d + 19` is four days late and owes 40. */
  lemma FineExample(d: int)
    ensures DaysLate(d + 19, NewLoan(0, 0, d).dueDate) == 4
    ensures FineAmount(d + 19, NewLoan(0, 0, d).dueDate) == 40
  {
  }

  // ---------------------------------------------------------------------
  // Member dashboard

  datatype DashboardRow = DashboardRow(
    title: string,
    borrowedAt: int,
    dueDate: int,
    status: string,
    fineAmount: int,
    finePaid: string)

  lemma StatusCaptions()
    ensures Capitalize("borrowed") == "Borrowed"
    ensures Capitalize("returned") == "Returned"
  {
    CapitalizeLowerTail("borrowed", "Borrowed");
    CapitalizeLowerTail("returned", "Returned");
  }

  /** "Overdue" for an overdue loan, otherwise the stored status capitalised. */
  function DisplayStatus(t: BorrowTransaction, today: int): (s: string)
    ensures s == "Overdue" <==> IsOverdue(t, today)
    ensures !IsOverdue(t, today) ==> s == (if t.status == Borrowed then "Borrowed" else "Returned")
  {
    StatusCaptions();
    if t.status == Borrowed && t.dueDate < today then "Overdue"
    else Capitalize(BorrowStatusName(t.status))
  }

  /** `FinePayment.objects.get(borrow_transaction=i)`, absent when there is none. */
  function FineOf(fines: seq<FinePayment>, i: nat): (o: Option<nat>)
    ensures o.Some? ==> o.value < |fines| && fines[o.value].transaction == i
    ensures o.None? ==> forall f :: 0 <= f < |fines| ==> fines[f].transaction != i
  {
    var bound := (f: nat) => f < |fines| && fines[f].transaction == i;
    assert forall f :: 0 <= f < |fines| ==> bound(f) == (fines[f].transaction == i);
    FirstWhere(|fines|, bound)
  }

  /** The transactions of member profile `p`, in primary-key order. */
  function LoansOfMember(db: Db, p: nat): (r: seq<nat>)
    ensures forall k :: 0 <= k < |r| ==> r[k] < |db.transactions| && db.transactions[r[k]].member == p
    ensures forall i :: 0 <= i < |db.transactions| && db.transactions[i].member == p ==> i in r
    ensures Increasing(r)
  {
    Select(|db.transactions|, (i: nat) => i < |db.transactions| && db.transactions[i].member == p)
  }

  /** Transaction `i` and the copy and book behind it exist. */
  predicate RowRefs(db: Db, i: nat) {
    i < |db.transactions| && db.transactions[i].copy < |db.copies|
    && db.copies[db.transactions[i].copy].book < |db.books|
  }

  /** The dashboard row of transaction `i`. */
  function RowFor(db: Db, i: nat, today: int): (row: DashboardRow)
    requires RowRefs(db, i)
    ensures row.title == db.books[db.copies[db.transactions[i].copy].book].title
    ensures row.borrowedAt == db.transactions[i].borrowedAt && row.dueDate == db.transactions[i].dueDate
    ensures row.status == "Overdue" <==> IsOverdue(db.transactions[i], today)
    ensures row.status == DisplayStatus(db.transactions[i], today)
    ensures row.finePaid == "No Fine" <==> FineOf(db.fines, i).None?
    ensures FineOf(db.fines, i).None? ==> row.fineAmount == 0
    ensures FineOf(db.fines, i).Some? ==>
              row.fineAmount == db.fines[FineOf(db.fines, i).value].amount
              && row.finePaid == (if db.fines[FineOf(db.fines, i).value].paid then "Paid" else "Unpaid")
  {
    var t := db.transactions[i];
    var fine := FineOf(db.fines, i);
    DashboardRow(
      db.books[db.copies[t.copy].book].title,
      t.borrowedAt,
      t.dueDate,
      DisplayStatus(t, today),
      if fine.Some? then db.fines[fine.value].amount else 0,
      if fine.None? then "No Fine" else if db.fines[fine.value].paid then "Paid" else "Unpaid")
  }

  /** The dashboard flags as "Overdue" exactly the loans the overdue list holds. */
  lemma DashboardAgreesWithOverdueList(db: Db, i: nat, today: int)
    requires RowRefs(db, i)
    ensures RowFor(db, i, today).status == "Overdue" <==> i in BookOverdue(db, today, "")
  {
  }

  /** In a consistent store a loan with a fine shows as returned, with its fine. */
  lemma FinedLoanShowsReturned(db: Db, i: nat, today: int)
    requires Consistent(db) && i < |db.transactions|
    requires FineOf(db.fines, i).Some?
    ensures RowRefs(db, i)
    ensures RowFor(db, i, today).status == "Returned"
    ensures RowFor(db, i, today).finePaid != "No Fine"
  {
    var f := FineOf(db.fines, i).value;
    assert db.transactions[db.fines[f].transaction].status == Returned;
  }

  // ---------------------------------------------------------------------
  // Borrow page member list

  /** The members offered on the borrow page: role Member, user name matching `name` if given. */
  function MemberChoices(db: Db, name: string): (r: seq<nat>)
    ensures Increasing(r)
    ensures forall k :: 0 <= k < |r| ==> r[k] < |db.members|
    ensures forall i :: 0 <= i < |db.members| ==>
              (i in r <==> db.members[i].role == Member
                           && (name == "" || ContainsIgnoreCase(db.members[i].username, name)))
  {
    var offered := (i: nat) => i < |db.members| && db.members[i].role == Member
                               && (name == "" || ContainsIgnoreCase(db.members[i].username, name));
    assert forall i :: 0 <= i < |db.members| ==>
      offered(i) == (db.members[i].role == Member && (name == "" || ContainsIgnoreCase(db.members[i].username, name)));
    Select(|db.members|, offered)
  }
}
