/**
 * The records of the library store: member profiles, authors, categories,
 * books, physical copies, borrow transactions and fine payments, with the
 * choice sets, defaults, uniqueness and one-to-one constraints the schema
 * declares. Each table is a sequence and a row's primary key is its index;
 * a foreign key is the index of the row it refers to. Dates are day numbers.
 */
module Models {
  import opened Wrappers
  import opened Query

  type UserId = nat

  datatype Role = Member | Admin | Librarian

  function RoleName(r: Role): string {
    match r
    case Member => "Member"
    case Admin => "Admin"
    case Librarian => "Librarian"
  }

  /** The role choice a stored string stands for, if it is one. */
  function ParseRole(s: string): (r: Option<Role>)
    ensures r.Some? ==> RoleName(r.value) == s
  {
    if s == "Member" then Some(Member)
    else if s == "Admin" then Some(Admin)
    else if s == "Librarian" then Some(Librarian)
    else None
  }

  /** Every role is stored under its own name and read back as itself. */
  lemma RoleNameRoundTrip(r: Role)
    ensures ParseRole(RoleName(r)) == Some(r)
  {
  }

  datatype CopyStatus = Available | Unavailable

  function CopyStatusName(s: CopyStatus): string {
    match s
    case Available => "available"
    case Unavailable => "unavailable"
  }

  datatype Condition = Good | Medium | Bad

  datatype BorrowStatus = Borrowed | Returned

  function BorrowStatusName(s: BorrowStatus): string {
    match s
    case Borrowed => "borrowed"
    case Returned => "returned"
  }

  /** The borrow-status choice a submitted string stands for, if it is one. */
  function ParseBorrowStatus(s: string): (r: Option<BorrowStatus>)
    ensures r.Some? ==> BorrowStatusName(r.value) == s
    ensures r.None? ==> s != "borrowed" && s != "returned"
  {
    if s == "borrowed" then Some(Borrowed)
    else if s == "returned" then Some(Returned)
    else None
  }

  /**
   * A member profile, linked one-to-one to a login identity `user`;
   * `username` is that identity's user name.
   */
  datatype MemberProfile = MemberProfile(
    user: UserId,
    username: string,
    role: Role,
    membershipId: nat,
    phone: string,
    address: string,
    isActive: bool,
    joinedDate: int,
    rollNo: Option<string>,
    department: Option<string>)

  /** A profile as the schema's defaults create it: role Member, active, joined today. */
  function NewProfile(user: UserId, username: string, membershipId: nat, phone: string,
                      address: string, rollNo: Option<string>, department: Option<string>,
                      today: int): (p: MemberProfile)
    ensures p.role == Member && p.isActive && p.joinedDate == today
    ensures p.user == user && p.username == username && p.membershipId == membershipId
    ensures p.phone == phone && p.address == address && p.rollNo == rollNo && p.department == department
  {
    MemberProfile(user, username, Member, membershipId, phone, address, true, today, rollNo, department)
  }

  datatype Author = Author(name: string, bio: Option<string>, dateOfBirth: Option<int>)

  datatype Category = Category(name: string, description: Option<string>)

  /** A title; `category` and `authors` are keys into their tables. */
  datatype Book = Book(
    title: string,
    isbn: string,
    category: nat,
    authors: set<nat>,
    publisher: string,
    publicationYear: int,
    language: string,
    description: Option<string>)

  /** One physical, lendable unit of a book. */
  datatype BookCopy = BookCopy(
    book: nat,
    barcode: string,
    shelfLocation: string,
    status: CopyStatus,
    condition: Condition,
    addedAt: int)

  datatype BorrowTransaction = BorrowTransaction(
    member: nat,
    copy: nat,
    borrowedAt: int,
    dueDate: int,
    returnedAt: Option<int>,
    status: BorrowStatus)

  datatype FinePayment = FinePayment(
    transaction: nat,
    amount: int,
    paid: bool,
    paidAt: Option<int>)

  /** The whole store, one sequence per table. */
  datatype Db = Db(
    members: seq<MemberProfile>,
    authors: seq<Author>,
    categories: seq<Category>,
    books: seq<Book>,
    copies: seq<BookCopy>,
    transactions: seq<BorrowTransaction>,
    fines: seq<FinePayment>)

  /** The profile-to-user link is one-to-one. */
  predicate OneProfilePerUser(members: seq<MemberProfile>) {
    forall i, j :: 0 <= i < |members| && 0 <= j < |members| && members[i].user == members[j].user ==> i == j
  }

  predicate UniqueIsbn(books: seq<Book>) {
    forall i, j :: 0 <= i < |books| && 0 <= j < |books| && books[i].isbn == books[j].isbn ==> i == j
  }

  predicate UniqueBarcodes(copies: seq<BookCopy>) {
    forall i, j :: 0 <= i < |copies| && 0 <= j < |copies| && copies[i].barcode == copies[j].barcode ==> i == j
  }

  /** The fine-to-transaction link is one-to-one. */
  predicate OneFinePerLoan(fines: seq<FinePayment>) {
    forall i, j :: 0 <= i < |fines| && 0 <= j < |fines| && fines[i].transaction == fines[j].transaction ==> i == j
  }

  /** Every foreign key names an existing row. */
  predicate References(db: Db) {
    && (forall b :: 0 <= b < |db.books| ==>
          db.books[b].category < |db.categories| && forall a :: a in db.books[b].authors ==> a < |db.authors|)
    && (forall c :: 0 <= c < |db.copies| ==> db.copies[c].book < |db.books|)
    && (forall i :: 0 <= i < |db.transactions| ==>
          db.transactions[i].member < |db.members| && db.transactions[i].copy < |db.copies|)
    && (forall f :: 0 <= f < |db.fines| ==> db.fines[f].transaction < |db.transactions|)
  }

  predicate WellFormed(db: Db) {
    && OneProfilePerUser(db.members)
    && UniqueIsbn(db.books)
    && UniqueBarcodes(db.copies)
    && OneFinePerLoan(db.fines)
    && References(db)
  }

  /** The profile of a login identity (`MemberProfile.objects.get(user_id=...)`). */
  function ProfileOf(members: seq<MemberProfile>, user: UserId): (o: Option<nat>)
    ensures o.Some? ==> o.value < |members| && members[o.value].user == user
    ensures o.None? ==> forall i :: 0 <= i < |members| ==> members[i].user != user
  {
    var owns := (i: nat) => i < |members| && members[i].user == user;
    assert forall i :: 0 <= i < |members| ==> owns(i) == (members[i].user == user);
    FirstWhere(|members|, owns)
  }

  /** With the one-to-one link, the profile found is the only one of that user. */
  lemma ProfileOfUnique(members: seq<MemberProfile>, user: UserId, i: nat)
    requires OneProfilePerUser(members)
    requires i < |members| && members[i].user == user
    ensures ProfileOf(members, user) == Some(i)
  {
  }
}
