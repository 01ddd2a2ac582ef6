/**
 * The catalogue's records (catalog/models.py): genres, books, authors and
 * the loanable copies of books, their derived properties and display
 * strings, the declared listing orders, and what deleting a referenced
 * record does to the rows that point at it (`on_delete=SET_NULL`).
 *
 * Dates are day numbers; the current date is always a parameter.
 */
module Models {
  import opened Optional
  import opened Text
  import opened Query

  type Date = int
  type GenreId = nat
  type AuthorId = nat
  type BookId = nat
  type UserId = nat
  /** A copy's primary key, a UUID, held as its canonical text. */
  type InstanceId = string

  // ---------------------------------------------------------------------
  // Loan status: the `LOAN_STATUS` choices of a one-character column that
  // may also be left blank.

  datatype Status = Blank | Maintenance | OnLoan | Available | Reserved

  /** The value stored in the `status` column. */
  function StatusCode(s: Status): (c: string)
    ensures |c| <= 1
  {
    match s
    case Blank => ""
    case Maintenance => "m"
    case OnLoan => "o"
    case Available => "a"
    case Reserved => "r"
  }

  /** Validation of a submitted `status`: one of the choices, or blank. */
  function ParseStatus(code: string): (r: Option<Status>)
    ensures r.Some? <==> code in {"", "m", "o", "a", "r"}
    ensures r.Some? ==> StatusCode(r.value) == code
  {
    if code == "" then Some(Blank)
    else if code == "m" then Some(Maintenance)
    else if code == "o" then Some(OnLoan)
    else if code == "a" then Some(Available)
    else if code == "r" then Some(Reserved)
    else None
  }

  /** Every status is stored as a code that validates back to it. */
  lemma StatusCodeRoundTrip(s: Status)
    ensures ParseStatus(StatusCode(s)) == Some(s)
  {
  }

  /** Distinct statuses are stored as distinct codes. */
  lemma StatusCodeInjective(s: Status, t: Status)
    ensures StatusCode(s) == StatusCode(t) <==> s == t
  {
  }

  // ---------------------------------------------------------------------
  // Records

  datatype Genre = Genre(id: GenreId, name: string)

  /** `genres` lists the book's genres in the order the store returns them. */
  datatype Book = Book(
    id: BookId,
    title: string,
    author: Option<AuthorId>,
    summary: string,
    isbn: string,
    genres: seq<Genre>)

  datatype Author = Author(
    id: AuthorId,
    firstName: string,
    lastName: string,
    dateOfBirth: Option<Date>,
    dateOfDeath: Option<Date>)

  datatype BookInstance = BookInstance(
    id: InstanceId,
    book: Option<BookId>,
    imprint: string,
    dueBack: Option<Date>,
    borrower: Option<UserId>,
    status: Status)

  /**
   * Keyword arguments given when a copy is created; `None` means the
   * argument was not supplied and the field's default applies.
   */
  datatype InstanceArgs = InstanceArgs(
    id: Option<InstanceId>,
    book: Option<BookId>,
    imprint: string,
    dueBack: Option<Date>,
    borrower: Option<UserId>,
    status: Option<Status>)

  /**
   * A new copy: `generatedId` stands for `uuid.uuid4()`; `due_back` and
   * `borrower` default to null and `status` to Maintenance.
   */
  function NewBookInstance(args: InstanceArgs, generatedId: InstanceId): (r: BookInstance)
    ensures args.status.None? ==> r.status == Maintenance && StatusCode(r.status) == "m"
    ensures args.status.Some? ==> r.status == args.status.value
    ensures r.book == args.book && r.imprint == args.imprint
    ensures r.dueBack == args.dueBack && r.borrower == args.borrower
    ensures args.id.Some? ==> r.id == args.id.value
    ensures args.id.None? ==> r.id == generatedId
  {
    BookInstance(
      if args.id.Some? then args.id.value else generatedId,
      args.book,
      args.imprint,
      args.dueBack,
      args.borrower,
      if args.status.Some? then args.status.value else Maintenance)
  }

  /**
   * `BookInstance.is_overdue`: never without a due date; with one, not on
   * or before the due date and always on the days strictly after it.
   */
  function IsOverdue(inst: BookInstance, today: Date): (overdue: bool)
    ensures inst.dueBack.None? ==> !overdue
    ensures inst.dueBack.Some? && today <= inst.dueBack.value ==> !overdue
    ensures inst.dueBack.Some? && today > inst.dueBack.value ==> overdue
  {
    inst.dueBack.Some? && today > inst.dueBack.value
  }

  /** Once overdue, a copy stays overdue as the days pass. */
  lemma OverdueStaysOverdue(inst: BookInstance, today: Date, later: Date)
    requires today <= later
    ensures IsOverdue(inst, today) ==> IsOverdue(inst, later)
  {
  }

  /** A copy created with the defaults is in maintenance and never overdue. */
  lemma NewInstanceDefaults(args: InstanceArgs, generatedId: InstanceId, today: Date)
    requires args.status.None? && args.dueBack.None? && args.borrower.None?
    ensures NewBookInstance(args, generatedId).status == Maintenance
    ensures NewBookInstance(args, generatedId).borrower.None?
    ensures !IsOverdue(NewBookInstance(args, generatedId), today)
  {
  }

  // ---------------------------------------------------------------------
  // Display strings

  function GenreNames(gs: seq<Genre>): (names: seq<string>)
    ensures |names| == |gs|
    ensures forall i :: 0 <= i < |gs| ==> names[i] == gs[i].name
  {
    seq(|gs|, i requires 0 <= i < |gs| => gs[i].name)
  }

  /** The first (at most) three genres, in store order. */
  function FirstGenres(b: Book): (r: seq<Genre>)
    ensures |r| <= 3 && |r| <= |b.genres| && r == b.genres[..|r|]
    ensures |r| == if |b.genres| <= 3 then |b.genres| else 3
  {
    if |b.genres| <= 3 then b.genres else b.genres[..3]
  }

  /**
   * `Book.display_genre`: the names of at most the first three genres
   * joined with ", ". When no name contains a comma the string splits
   * back into exactly those names, so it has at most two separators.
   */
  function DisplayGenre(b: Book): (r: string)
    ensures b.genres == [] ==> r == ""
    ensures b.genres != [] && (forall g :: g in FirstGenres(b) ==> CommaFree(g.name)) ==>
      Split(r) == GenreNames(FirstGenres(b)) && |Split(r)| <= 3
  {
    var names := GenreNames(FirstGenres(b));
    assert b.genres != [] && (forall g :: g in FirstGenres(b) ==> CommaFree(g.name)) ==>
      Split(Join(", ", names)) == names by {
      if b.genres != [] && (forall g :: g in FirstGenres(b) ==> CommaFree(g.name)) {
        assert forall i :: 0 <= i < |names| ==> CommaFree(names[i]) by {
          forall i | 0 <= i < |names| ensures CommaFree(names[i]) {
            assert FirstGenres(b)[i] in FirstGenres(b);
          }
        }
        SplitJoin(names);
      }
    }
    Join(", ", names)
  }

  /**
   * `Author.__str__`: the last name, then ", ", then the first name; with
   * comma-free names it splits back into its two names.
   */
  function AuthorStr(a: Author): (r: string)
    ensures |r| == |a.lastName| + 2 + |a.firstName|
    ensures r[..|a.lastName|] == a.lastName
    ensures r[|a.lastName|..|a.lastName| + 2] == ", "
    ensures r[|a.lastName| + 2..] == a.firstName
    ensures CommaFree(a.lastName) && CommaFree(a.firstName) ==>
      Split(r) == [a.lastName, a.firstName]
  {
    var r := a.lastName + ", " + a.firstName;
    assert CommaFree(a.lastName) && CommaFree(a.firstName) ==> Split(r) == [a.lastName, a.firstName] by {
      if CommaFree(a.lastName) && CommaFree(a.firstName) {
        SplitAfter(a.lastName, a.firstName);
        SplitCommaFree(a.firstName);
      }
    }
    r
  }

  /** Why `BookInstance.__str__` can fail. */
  datatype StrError =
    | NoBook          // `self.book` is None: the attribute lookup on None raises
    | BookNotFound    // the referenced book row is missing

  function FindBook(books: seq<Book>, id: BookId): (r: Option<Book>)
    ensures r.Some? ==> r.value in books && r.value.id == id
    ensures r.None? ==> forall b :: b in books ==> b.id != id
  {
    if books == [] then None
    else if books[0].id == id then Some(books[0])
    else
      FindBook(books[1..], id)
  }

  /** The text `id + " (" + title + ")"` of a copy. */
  function InstanceLabel(id: InstanceId, title: string): string
  {
    id + " (" + title + ")"
  }

  /**
   * `BookInstance.__str__`: needs a book; fails when the copy has none.
   */
  function InstanceStr(books: seq<Book>, inst: BookInstance): (r: Result<string, StrError>)
    ensures inst.book.None? <==> r == Failure(NoBook)
    ensures r.Success? <==> inst.book.Some? && inst.book.value in BookIds(books)
    ensures r.Success? ==>
      (exists b :: b in books && b.id == inst.book.value && r.value == InstanceLabel(inst.id, b.title))
  {
    match inst.book
    case None => Failure(NoBook)
    case Some(bid) =>
      match FindBook(books, bid)
      case None => Failure(BookNotFound)
      case Some(b) => Success(InstanceLabel(inst.id, b.title))
  }

  /** The position of the first space in `s`, or `|s|` when there is none. */
  function FirstSpace(s: string): (n: nat)
    ensures n <= |s|
  {
    if s == [] || s[0] == ' ' then 0 else 1 + FirstSpace(s[1..])
  }

  lemma {:induction false} FirstSpaceAfter(x: string, y: string)
    requires ' ' !in x && |y| > 0 && y[0] == ' '
    ensures FirstSpace(x + y) == |x|
  {
    if x != [] {
      assert (x + y)[1..] == x[1..] + y;
      FirstSpaceAfter(x[1..], y);
    }
  }

  /**
   * UUID text has no spaces, so a copy's string determines its id and the
   * title of its book.
   */
  lemma InstanceLabelInjective(id1: InstanceId, t1: string, id2: InstanceId, t2: string)
    requires ' ' !in id1 && ' ' !in id2
    requires InstanceLabel(id1, t1) == InstanceLabel(id2, t2)
    ensures id1 == id2 && t1 == t2
  {
    var s := InstanceLabel(id1, t1);
    FirstSpaceAfter(id1, " (" + t1 + ")");
    FirstSpaceAfter(id2, " (" + t2 + ")");
    assert s == id1 + (" (" + t1 + ")") == id2 + (" (" + t2 + ")");
    assert id1 == s[..|id1|] == id2;
    assert t1 == s[|id1| + 2 .. |s| - 1] == t2;
  }

  // ---------------------------------------------------------------------
  // Declared orderings

  /**
   * `Author.Meta.ordering`: by last name, then first name. An author
   * listed before another has a last name no greater and, for equal last
   * names, a first name no greater.
   */
  function AuthorLe(a: Author, b: Author): (before: bool)
    ensures before ==> StrLe(a.lastName, b.lastName)
    ensures before && a.lastName == b.lastName ==> StrLe(a.firstName, b.firstName)
  {
    assert StrLe(a.lastName, a.lastName) by { StrLeTotal(a.lastName, a.lastName); }
    || (StrLe(a.lastName, b.lastName) && a.lastName != b.lastName)
    || (a.lastName == b.lastName && StrLe(a.firstName, b.firstName))
  }

  lemma AuthorLeTotalPreorder()
    ensures TotalPreorder(AuthorLe)
  {
    forall a: Author, b: Author
      ensures AuthorLe(a, b) || AuthorLe(b, a)
    {
      StrLeTotal(a.lastName, b.lastName);
      StrLeTotal(a.firstName, b.firstName);
    }
    forall a: Author, b: Author, c: Author | AuthorLe(a, b) && AuthorLe(b, c)
      ensures AuthorLe(a, c)
    {
      if a.lastName == b.lastName && b.lastName == c.lastName {
        StrLeTransitive(a.firstName, b.firstName, c.firstName);
      } else if a.lastName != b.lastName && b.lastName != c.lastName {
        StrLeTransitive(a.lastName, b.lastName, c.lastName);
        if a.lastName == c.lastName {
          StrLeAntisymmetric(a.lastName, b.lastName);
        }
      }
    }
  }

  /** The author listing: every author once, in (last name, first name) order. */
  function ListAuthors(authors: seq<Author>): (r: seq<Author>)
    ensures multiset(r) == multiset(authors)
    ensures forall i, j :: 0 <= i < j < |r| ==>
      StrLe(r[i].lastName, r[j].lastName) &&
      (r[i].lastName == r[j].lastName ==> StrLe(r[i].firstName, r[j].firstName))
  {
    AuthorLeTotalPreorder();
    SortBySorted(authors, AuthorLe);
    var r := SortBy(authors, AuthorLe);
    assert forall i, j :: 0 <= i < j < |r| ==>
      StrLe(r[i].lastName, r[j].lastName) &&
      (r[i].lastName == r[j].lastName ==> StrLe(r[i].firstName, r[j].firstName)) by {
      forall i, j | 0 <= i < j < |r|
        ensures StrLe(r[i].lastName, r[j].lastName)
        ensures r[i].lastName == r[j].lastName ==> StrLe(r[i].firstName, r[j].firstName)
      {
        assert AuthorLe(r[i], r[j]);
      }
    }
    r
  }

  /** Where rows with a null `due_back` go: the store decides. */
  datatype NullsOrder = NullsFirst | NullsLast

  predicate DueBackLe(x: Option<Date>, y: Option<Date>, nulls: NullsOrder)
  {
    match (x, y)
    case (None, None) => true
    case (None, Some(_)) => nulls == NullsFirst
    case (Some(_), None) => nulls == NullsLast
    case (Some(d), Some(e)) => d <= e
  }

  /**
   * The ordering `order_by('due_back')` uses: a total preorder that puts
   * earlier dates first and the null dates first or last, as `nulls` says.
   */
  function ByDueBack(nulls: NullsOrder): (le: (BookInstance, BookInstance) -> bool)
    ensures TotalPreorder(le)
    ensures forall a: BookInstance, b: BookInstance :: a.dueBack.Some? && b.dueBack.Some? ==>
      (le(a, b) <==> a.dueBack.value <= b.dueBack.value)
    ensures forall a: BookInstance, b: BookInstance :: a.dueBack.None? && b.dueBack.Some? ==>
      (le(a, b) <==> nulls == NullsFirst) && (le(b, a) <==> nulls == NullsLast)
  {
    (a: BookInstance, b: BookInstance) => DueBackLe(a.dueBack, b.dueBack, nulls)
  }

  /**
   * `order_by('due_back')`, also `BookInstance.Meta.ordering`: the same
   * copies, due dates non-decreasing.
   */
  function OrderByDueBack(s: seq<BookInstance>, nulls: NullsOrder): (r: seq<BookInstance>)
    ensures multiset(r) == multiset(s)
    ensures Sorted(r, ByDueBack(nulls))
    ensures forall i, j :: 0 <= i < j < |r| && r[i].dueBack.Some? && r[j].dueBack.Some? ==>
      r[i].dueBack.value <= r[j].dueBack.value
  {
    SortBySorted(s, ByDueBack(nulls));
    var r := SortBy(s, ByDueBack(nulls));
    assert forall i, j :: 0 <= i < j < |r| ==> ByDueBack(nulls)(r[i], r[j]);
    r
  }

  // ---------------------------------------------------------------------
  // The catalogue and its foreign keys

  /** The tables of the store; `users` are the principals of the user table. */
  datatype Catalogue = Catalogue(
    genres: seq<Genre>,
    authors: seq<Author>,
    books: seq<Book>,
    instances: seq<BookInstance>,
    users: set<UserId>)

  function AuthorKey(a: Author): AuthorId { a.id }
  function BookKey(b: Book): BookId { b.id }
  function InstanceKey(i: BookInstance): InstanceId { i.id }

  ghost function AuthorIds(authors: seq<Author>): set<AuthorId>
  {
    KeySet(authors, AuthorKey)
  }

  ghost function BookIds(books: seq<Book>): set<BookId>
  {
    KeySet(books, BookKey)
  }

  /** Primary keys are unique and every non-null foreign key names an existing row. */
  ghost predicate Consistent(c: Catalogue)
  {
    && UniqueBy(c.authors, AuthorKey)
    && UniqueBy(c.books, BookKey)
    && UniqueBy(c.instances, InstanceKey)
    && (forall b :: b in c.books && b.author.Some? ==> b.author.value in AuthorIds(c.authors))
    && (forall i :: i in c.instances && i.book.Some? ==> i.book.value in BookIds(c.books))
    && (forall i :: i in c.instances && i.borrower.Some? ==> i.borrower.value in c.users)
  }

  /** In a consistent catalogue every copy with a book has a string form. */
  lemma InstanceStrDefined(c: Catalogue, inst: BookInstance)
    requires Consistent(c) && inst in c.instances && inst.book.Some?
    ensures InstanceStr(c.books, inst).Success?
  {
  }

  function KeepAuthor(id: AuthorId): Author -> bool
  {
    (a: Author) => a.id != id
  }

  function KeepBook(id: BookId): Book -> bool
  {
    (b: Book) => b.id != id
  }

  function DropAuthorRef(b: Book, id: AuthorId): Book
  {
    if b.author == Some(id) then b.(author := None) else b
  }

  function DropBookRef(i: BookInstance, id: BookId): BookInstance
  {
    if i.book == Some(id) then i.(book := None) else i
  }

  function DropBorrowerRef(i: BookInstance, id: UserId): BookInstance
  {
    if i.borrower == Some(id) then i.(borrower := None) else i
  }

  /** Deleting an author: its books lose their author; nothing else changes. */
  function DeleteAuthor(c: Catalogue, id: AuthorId): (r: Catalogue)
    ensures forall a :: a in r.authors <==> a in c.authors && a.id != id
    ensures |r.books| == |c.books|
    ensures forall k :: 0 <= k < |c.books| ==>
      if c.books[k].author == Some(id)
      then r.books[k] == c.books[k].(author := None)
      else r.books[k] == c.books[k]
    ensures r.genres == c.genres && r.instances == c.instances && r.users == c.users
  {
    var authors := Filter(c.authors, KeepAuthor(id));
    assert forall a :: a in authors <==> a in c.authors && a.id != id by {
      forall a ensures a in authors <==> a in c.authors && a.id != id {
        assert a in authors <==> a in multiset(authors);
        assert a in c.authors <==> a in multiset(c.authors);
      }
    }
    c.(authors := authors,
       books := seq(|c.books|, k requires 0 <= k < |c.books| => DropAuthorRef(c.books[k], id)))
  }

  /** Deleting a book: its copies lose their book; nothing else changes. */
  function DeleteBook(c: Catalogue, id: BookId): (r: Catalogue)
    ensures forall b :: b in r.books <==> b in c.books && b.id != id
    ensures |r.instances| == |c.instances|
    ensures forall k :: 0 <= k < |c.instances| ==>
      if c.instances[k].book == Some(id)
      then r.instances[k] == c.instances[k].(book := None)
      else r.instances[k] == c.instances[k]
    ensures r.genres == c.genres && r.authors == c.authors && r.users == c.users
  {
    var books := Filter(c.books, KeepBook(id));
    assert forall b :: b in books <==> b in c.books && b.id != id by {
      forall b ensures b in books <==> b in c.books && b.id != id {
        assert b in books <==> b in multiset(books);
        assert b in c.books <==> b in multiset(c.books);
      }
    }
    c.(books := books,
       instances := seq(|c.instances|, k requires 0 <= k < |c.instances| => DropBookRef(c.instances[k], id)))
  }

  /** Deleting a user: the copies they borrowed lose their borrower; nothing else changes. */
  function DeleteUser(c: Catalogue, id: UserId): (r: Catalogue)
    ensures r.users == c.users - {id}
    ensures |r.instances| == |c.instances|
    ensures forall k :: 0 <= k < |c.instances| ==>
      if c.instances[k].borrower == Some(id)
      then r.instances[k] == c.instances[k].(borrower := None)
      else r.instances[k] == c.instances[k]
    ensures r.genres == c.genres && r.authors == c.authors && r.books == c.books
  {
    c.(users := c.users - {id},
       instances := seq(|c.instances|, k requires 0 <= k < |c.instances| => DropBorrowerRef(c.instances[k], id)))
  }

  /** After deleting an author, every remaining author reference resolves. */
  lemma DeleteAuthorBooksResolve(c: Catalogue, id: AuthorId)
    requires Consistent(c)
    ensures forall b :: b in DeleteAuthor(c, id).books ==>
      b.author != Some(id) && (b.author.Some? ==> b.author.value in AuthorIds(DeleteAuthor(c, id).authors))
  {
  }

  /** After deleting an author the catalogue is consistent and nothing refers to it. */
  lemma DeleteAuthorConsistent(c: Catalogue, id: AuthorId)
    requires Consistent(c)
    ensures Consistent(DeleteAuthor(c, id))
    ensures id !in AuthorIds(DeleteAuthor(c, id).authors)
    ensures forall b :: b in DeleteAuthor(c, id).books ==> b.author != Some(id)
  {
    var r := DeleteAuthor(c, id);
    FilterUniqueBy(c.authors, KeepAuthor(id), AuthorKey);
    assert r.authors == Filter(c.authors, KeepAuthor(id));
    SameKeys(c.books, r.books, BookKey);
    DeleteAuthorBooksResolve(c, id);
  }

  /** After deleting a book, every remaining book reference resolves. */
  lemma DeleteBookInstancesResolve(c: Catalogue, id: BookId)
    requires Consistent(c)
    ensures forall i :: i in DeleteBook(c, id).instances ==>
      && i.book != Some(id)
      && (i.book.Some? ==> i.book.value in BookIds(DeleteBook(c, id).books))
      && (i.borrower.Some? ==> i.borrower.value in c.users)
  {
  }

  /** After deleting a book the catalogue is consistent and no copy refers to it. */
  lemma DeleteBookConsistent(c: Catalogue, id: BookId)
    requires Consistent(c)
    ensures Consistent(DeleteBook(c, id))
    ensures id !in BookIds(DeleteBook(c, id).books)
    ensures forall i :: i in DeleteBook(c, id).instances ==> i.book != Some(id)
  {
    var r := DeleteBook(c, id);
    FilterUniqueBy(c.books, KeepBook(id), BookKey);
    assert r.books == Filter(c.books, KeepBook(id));
    SameKeys(c.instances, r.instances, InstanceKey);
    DeleteBookInstancesResolve(c, id);
  }

  /** After deleting a user the catalogue is consistent and no copy is lent to them. */
  lemma DeleteUserConsistent(c: Catalogue, id: UserId)
    requires Consistent(c)
    ensures Consistent(DeleteUser(c, id))
    ensures forall i :: i in DeleteUser(c, id).instances ==> i.borrower != Some(id)
  {
  }
}
