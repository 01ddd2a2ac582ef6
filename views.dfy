/**
 * The rules the catalogue's views apply (catalog/views.py): the dashboard
 * counts and the per-session visit counter of the home page, the two
 * on-loan listings, and the librarian's renewal of a copy's due date.
 *
 * Templates, redirects' URLs, pagination and the login and permission
 * checks are not modelled; renewal is modelled for a caller who holds
 * the librarian permission.
 */
module Views {
  import opened Optional
  import opened Query
  import opened Models

  // ---------------------------------------------------------------------
  // Home page

  /** `filter(status__exact=code)` */
  function WithStatusCode(code: string): BookInstance -> bool
  {
    (i: BookInstance) => StatusCode(i.status) == code
  }

  /**
   * `BookInstance.objects.filter(status__exact=code).count()`: at most
   * the number of copies, and zero exactly when no copy has that code.
   */
  function CountWithStatus(s: seq<BookInstance>, code: string): (n: nat)
    ensures n <= |s|
    ensures n == 0 <==> forall k :: 0 <= k < |s| ==> StatusCode(s[k].status) != code
  {
    var r := Filter(s, WithStatusCode(code));
    assert (exists k :: 0 <= k < |s| && StatusCode(s[k].status) == code) ==> |r| > 0 by {
      if k :| 0 <= k < |s| && StatusCode(s[k].status) == code {
        assert multiset(s)[s[k]] > 0;
        assert multiset(r)[s[k]] > 0;
      }
    }
    assert |r| > 0 ==> exists k :: 0 <= k < |s| && StatusCode(s[k].status) == code by {
      if |r| > 0 {
        assert multiset(r)[r[0]] > 0;
        assert r[0] in multiset(s);
        var k :| 0 <= k < |s| && s[k] == r[0];
      }
    }
    |r|
  }

  /** The status column of a table, row by row. */
  function Statuses(s: seq<BookInstance>): (r: seq<Status>)
    ensures |r| == |s|
    ensures forall k :: 0 <= k < |s| ==> r[k] == s[k].status
  {
    seq(|s|, k requires 0 <= k < |s| => s[k].status)
  }

  /** Counting the rows whose code is that of `st` counts the copies in status `st`. */
  lemma {:induction false} CountWithStatusOccurrences(s: seq<BookInstance>, st: Status)
    ensures CountWithStatus(s, StatusCode(st)) == multiset(Statuses(s))[st]
  {
    if s != [] {
      CountWithStatusOccurrences(s[1..], st);
      CountWithStatusStep(s, StatusCode(st));
      StatusesStep(s, st);
      StatusCodeInjective(s[0].status, st);
    }
  }

  lemma CountWithStatusStep(s: seq<BookInstance>, code: string)
    requires s != []
    ensures CountWithStatus(s, code) ==
      (if StatusCode(s[0].status) == code then 1 else 0) + CountWithStatus(s[1..], code)
  {
  }

  lemma StatusesStep(s: seq<BookInstance>, st: Status)
    requires s != []
    ensures multiset(Statuses(s))[st] ==
      (if s[0].status == st then 1 else 0) + multiset(Statuses(s[1..]))[st]
  {
    assert Statuses(s) == [s[0].status] + Statuses(s[1..]);
  }

  /** Every copy is in exactly one of the five statuses. */
  lemma {:induction false} StatusPartition(s: seq<BookInstance>)
    ensures var m := multiset(Statuses(s));
      m[Blank] + m[Maintenance] + m[OnLoan] + m[Available] + m[Reserved] == |s|
  {
    if s != [] {
      StatusPartition(s[1..]);
      StatusesStep(s, Blank);
      StatusesStep(s, Maintenance);
      StatusesStep(s, OnLoan);
      StatusesStep(s, Available);
      StatusesStep(s, Reserved);
    }
  }

  /** The four status counts of the home page and how they cover the copies. */
  lemma StatusCounts(s: seq<BookInstance>)
    ensures CountWithStatus(s, "a") == multiset(Statuses(s))[Available]
    ensures CountWithStatus(s, "o") == multiset(Statuses(s))[OnLoan]
    ensures CountWithStatus(s, "r") == multiset(Statuses(s))[Reserved]
    ensures CountWithStatus(s, "m") == multiset(Statuses(s))[Maintenance]
    ensures CountWithStatus(s, "a") + CountWithStatus(s, "o") + CountWithStatus(s, "r") +
      CountWithStatus(s, "m") + multiset(Statuses(s))[Blank] == |s|
  {
    CountWithStatusOccurrences(s, Available);
    CountWithStatusOccurrences(s, OnLoan);
    CountWithStatusOccurrences(s, Reserved);
    CountWithStatusOccurrences(s, Maintenance);
    StatusPartition(s);
  }

  /** The template context of the home page. */
  datatype Dashboard = Dashboard(
    numBooks: nat,
    numInstances: nat,
    numInstancesAvailable: nat,
    numInstancesOnLoan: nat,
    numInstancesReserved: nat,
    numInstancesMaintenance: nat,
    numAuthors: nat,
    numVisits: int)

  function StatusTotal(d: Dashboard): nat
  {
    d.numInstancesAvailable + d.numInstancesOnLoan + d.numInstancesReserved + d.numInstancesMaintenance
  }

  /**
   * The counts of the home page. Each status count is the number of copies
   * in that status; together they cover every copy except the blank ones.
   */
  function DashboardContext(c: Catalogue, numVisits: int): (d: Dashboard)
    ensures d.numBooks == |c.books| && d.numAuthors == |c.authors|
    ensures d.numInstances == |c.instances| && d.numVisits == numVisits
    ensures d.numInstancesAvailable == multiset(Statuses(c.instances))[Available]
    ensures d.numInstancesOnLoan == multiset(Statuses(c.instances))[OnLoan]
    ensures d.numInstancesReserved == multiset(Statuses(c.instances))[Reserved]
    ensures d.numInstancesMaintenance == multiset(Statuses(c.instances))[Maintenance]
    ensures StatusTotal(d) + multiset(Statuses(c.instances))[Blank] == d.numInstances
    ensures StatusTotal(d) <= d.numInstances
    ensures StatusTotal(d) == d.numInstances <==>
      forall k :: 0 <= k < |c.instances| ==> c.instances[k].status != Blank
  {
    StatusCounts(c.instances);
    assert multiset(Statuses(c.instances))[Blank] != 0 ==> Blank in Statuses(c.instances);
    Dashboard(
      |c.books|,
      |c.instances|,
      CountWithStatus(c.instances, "a"),
      CountWithStatus(c.instances, "o"),
      CountWithStatus(c.instances, "r"),
      CountWithStatus(c.instances, "m"),
      |c.authors|,
      numVisits)
  }

  const NumVisitsKey: string := "num_visits"

  /** `session.get('num_visits', 0)`: the stored count, or 0 for a session without one. */
  function VisitsSoFar(data: map<string, int>): (v: int)
    ensures NumVisitsKey in data ==> v == data[NumVisitsKey]
    ensures NumVisitsKey !in data ==> v == 0
  {
    if NumVisitsKey in data then data[NumVisitsKey] else 0
  }

  /** The session after one more visit: the counter is one higher, the rest as before. */
  function RecordVisit(data: map<string, int>): (r: map<string, int>)
    ensures VisitsSoFar(r) == VisitsSoFar(data) + 1
    ensures r.Keys == data.Keys + {NumVisitsKey}
    ensures forall k :: k in data && k != NumVisitsKey ==> r[k] == data[k]
  {
    data[NumVisitsKey := VisitsSoFar(data) + 1]
  }

  function RecordVisits(data: map<string, int>, n: nat): map<string, int>
  {
    if n == 0 then data else RecordVisit(RecordVisits(data, n - 1))
  }

  /** After `n` visits the counter has moved on by exactly `n`. */
  lemma {:induction false} VisitsCounted(data: map<string, int>, n: nat)
    ensures VisitsSoFar(RecordVisits(data, n)) == VisitsSoFar(data) + n
  {
    if n > 0 {
      VisitsCounted(data, n - 1);
    }
  }

  /** A visitor's session: the key-value store the framework keeps per browser. */
  class Session {
    var data: map<string, int>

    constructor (data: map<string, int>)
      ensures this.data == data
    {
      this.data := data;
    }
  }

  /**
   * The home page: reads the visit count stored so far (0 for a new
   * session), stores one more, and puts the count read in the context.
   */
  method Index(c: Catalogue, session: Session) returns (context: Dashboard)
    modifies session
    ensures context == DashboardContext(c, VisitsSoFar(old(session.data)))
    ensures session.data == RecordVisit(old(session.data))
  {
    var numVisits := VisitsSoFar(session.data);
    session.data := session.data[NumVisitsKey := numVisits + 1];
    assert session.data == RecordVisit(old(session.data));
    context := DashboardContext(c, numVisits);
  }

  // ---------------------------------------------------------------------
  // On-loan listings

  /** `filter(borrower=user)` */
  function BorrowedBy(user: UserId): BookInstance -> bool
  {
    (i: BookInstance) => i.borrower == Some(user)
  }

  /**
   * The copies on loan to `user`, earliest due first: exactly the copies
   * whose borrower is `user` and whose status is on loan.
   */
  function LoanedBooksByUser(s: seq<BookInstance>, user: UserId, nulls: NullsOrder): (r: seq<BookInstance>)
    ensures forall x ::
      multiset(r)[x] == (if x.borrower == Some(user) && x.status == OnLoan then multiset(s)[x] else 0)
    ensures Sorted(r, ByDueBack(nulls))
  {
    var mine := Filter(Filter(s, BorrowedBy(user)), WithStatusCode("o"));
    forall x ensures multiset(mine)[x] ==
      if x.borrower == Some(user) && x.status == OnLoan then multiset(s)[x] else 0
    {
      StatusCodeInjective(x.status, OnLoan);
    }
    OrderByDueBack(mine, nulls)
  }

  /** Every copy on loan, earliest due first. */
  function LoanedBooksAll(s: seq<BookInstance>, nulls: NullsOrder): (r: seq<BookInstance>)
    ensures forall x :: multiset(r)[x] == (if x.status == OnLoan then multiset(s)[x] else 0)
    ensures Sorted(r, ByDueBack(nulls))
  {
    var onLoan := Filter(s, WithStatusCode("o"));
    forall x ensures multiset(onLoan)[x] == if x.status == OnLoan then multiset(s)[x] else 0
    {
      StatusCodeInjective(x.status, OnLoan);
    }
    OrderByDueBack(onLoan, nulls)
  }

  /** Each user's loans appear in the librarian's list of all loans. */
  lemma UserLoansAmongAll(s: seq<BookInstance>, user: UserId, nulls: NullsOrder)
    ensures multiset(LoanedBooksByUser(s, user, nulls)) <= multiset(LoanedBooksAll(s, nulls))
  {
  }

  /** The librarian's list holds only copies on loan, each lent to somebody's list. */
  lemma AllLoansAreSomeonesLoans(s: seq<BookInstance>, nulls: NullsOrder, x: BookInstance)
    requires x in LoanedBooksAll(s, nulls) && x.borrower.Some?
    ensures x in LoanedBooksByUser(s, x.borrower.value, nulls)
  {
  }

  // ---------------------------------------------------------------------
  // Renewal

  const RenewalProposalDays: int := 3 * 7

  /** The renewal date a fresh form proposes: three weeks (21 days) after today. */
  function ProposedRenewalDate(today: Date): (d: Date)
    ensures today < d && d - today == 3 * 7
  {
    today + RenewalProposalDays
  }

  /**
   * A copy renewed to the proposed date is not overdue for the next
   * three weeks and becomes overdue on the day after.
   */
  lemma ProposedRenewalGivesThreeWeeks(inst: BookInstance, today: Date, day: Date)
    ensures !IsOverdue(inst.(dueBack := Some(ProposedRenewalDate(today))), day) <==> day <= today + 21
  {
  }

  /**
   * The request: a POST whose form validated carries its cleaned
   * `renewal_date`; a POST whose form did not validate carries `None`;
   * a GET (or any other method) carries nothing.
   */
  datatype RenewRequest = Post(cleanedRenewalDate: Option<Date>) | NotPost

  datatype RenewalForm =
    | Unbound(initialRenewalDate: Date)
    | Bound(cleanedRenewalDate: Option<Date>)

  datatype RenewResponse =
    | NotFound
    | RedirectToIndex
    | RenderRenewPage(form: RenewalForm, bookInstance: BookInstance)

  /** `get_object_or_404(BookInstance, pk=pk)`: the position of the copy with that key. */
  function FindInstance(s: seq<BookInstance>, pk: InstanceId): (r: Option<nat>)
    ensures r.Some? ==> r.value < |s| && s[r.value].id == pk
    ensures r.None? <==> forall k :: 0 <= k < |s| ==> s[k].id != pk
  {
    if s == [] then None
    else if s[0].id == pk then Some(0)
    else
      match FindInstance(s[1..], pk)
      case None => None
      case Some(k) => Some(k + 1)
  }

  /** The catalogue after storing `dueBack := d` on the copy at position `k`. */
  function SetDueBack(c: Catalogue, k: nat, d: Date): Catalogue
    requires k < |c.instances|
  {
    c.(instances := c.instances[k := c.instances[k].(dueBack := Some(d))])
  }

  /**
   * The renewal view: the catalogue after the request and the response.
   * Only a validated POST for an existing copy changes anything, and then
   * only that copy's due date.
   */
  function Renew(c: Catalogue, pk: InstanceId, request: RenewRequest, today: Date): (out: (Catalogue, RenewResponse))
    requires UniqueBy(c.instances, InstanceKey)
    ensures FindInstance(c.instances, pk).None? <==> out == (c, NotFound)
    ensures FindInstance(c.instances, pk).Some? ==> out.1 != NotFound
    ensures out.0 != c ==> request.Post? && request.cleanedRenewalDate.Some?
    ensures request == NotPost && out.1 != NotFound ==>
      out.1.RenderRenewPage? && out.1.form == Unbound(today + 21) &&
      out.1.bookInstance == c.instances[FindInstance(c.instances, pk).value]
    ensures request == Post(None) && out.1 != NotFound ==>
      out.1.RenderRenewPage? && out.1.form == Bound(None) &&
      out.1.bookInstance == c.instances[FindInstance(c.instances, pk).value]
    ensures request.Post? && request.cleanedRenewalDate.Some? && out.1 != NotFound ==>
      && out.1 == RedirectToIndex
      && |out.0.instances| == |c.instances|
      && out.0.genres == c.genres && out.0.authors == c.authors
      && out.0.books == c.books && out.0.users == c.users
      && (forall k :: 0 <= k < |c.instances| ==>
            if c.instances[k].id == pk
            then out.0.instances[k] == c.instances[k].(dueBack := request.cleanedRenewalDate)
            else out.0.instances[k] == c.instances[k])
  {
    match FindInstance(c.instances, pk)
    case None => (c, NotFound)
    case Some(k) =>
      var inst := c.instances[k];
      match request
      case Post(Some(d)) =>
        (SetDueBack(c, k, d), RedirectToIndex)
      case Post(None) => (c, RenderRenewPage(Bound(None), inst))
      case NotPost => (c, RenderRenewPage(Unbound(ProposedRenewalDate(today)), inst))
  }

  /** Renewing keeps the catalogue consistent: keys and references are untouched. */
  lemma RenewKeepsConsistent(c: Catalogue, pk: InstanceId, request: RenewRequest, today: Date)
    requires Consistent(c)
    ensures Consistent(Renew(c, pk, request, today).0)
  {
  }

  /** Renewing changes no status, so every home-page count stays the same. */
  lemma RenewKeepsDashboard(c: Catalogue, pk: InstanceId, request: RenewRequest, today: Date, numVisits: int)
    requires UniqueBy(c.instances, InstanceKey)
    ensures DashboardContext(Renew(c, pk, request, today).0, numVisits) == DashboardContext(c, numVisits)
  {
    var r := Renew(c, pk, request, today).0;
    assert Statuses(r.instances) == Statuses(c.instances);
  }

  /**
   * After a validated renewal to date `d`, the renewed copy is overdue on
   * exactly the days after `d`.
   */
  lemma RenewedCopyDueOnNewDate(c: Catalogue, pk: InstanceId, d: Date, today: Date, day: Date)
    requires UniqueBy(c.instances, InstanceKey)
    requires FindInstance(c.instances, pk).Some?
    ensures var r := Renew(c, pk, Post(Some(d)), today).0;
      var k := FindInstance(c.instances, pk).value;
      r.instances[k].id == pk && (IsOverdue(r.instances[k], day) <==> day > d)
  {
  }

  /**
   * The store of the catalogue's tables, with the renewal view as the one
   * operation that writes to it.
   */
  class Library {
    var catalogue: Catalogue

    ghost predicate Valid()
      reads this
    {
      Consistent(catalogue)
    }

    constructor (c: Catalogue)
      requires Consistent(c)
      ensures Valid() && catalogue == c
    {
      catalogue := c;
    }

    /**
     * `renew_book_librarian`: looks the copy up by key, then on a POST with
     * a valid form stores the cleaned date as its due date; otherwise it
     * answers with the renewal page and stores nothing.
     */
    method RenewBookLibrarian(pk: InstanceId, request: RenewRequest, today: Date)
      returns (response: RenewResponse)
      requires Valid()
      modifies this
      ensures Valid()
      ensures (catalogue, response) == Renew(old(catalogue), pk, request, today)
    {
      RenewKeepsConsistent(catalogue, pk, request, today);
      var found := FindInstance(catalogue.instances, pk);
      if found.None? {
        return NotFound;
      }
      var k := found.value;
      var bookInstance := catalogue.instances[k];
      match request {
        case Post(cleaned) =>
          if cleaned.Some? {
            bookInstance := bookInstance.(dueBack := cleaned);
            catalogue := catalogue.(instances := catalogue.instances[k := bookInstance]);
            return RedirectToIndex;
          }
          response := RenderRenewPage(Bound(cleaned), bookInstance);
        case NotPost =>
          response := RenderRenewPage(Unbound(ProposedRenewalDate(today)), bookInstance);
      }
    }
  }
}
