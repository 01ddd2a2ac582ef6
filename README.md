# Library catalogue: loan records and loan workflow

This project models the core of a small library catalogue web application.
Authors write books, books have genres, and a library holds loanable copies
of books (`BookInstance`). Each copy has a loan status (maintenance, on loan,
available, reserved, or left blank), an optional due date and an optional
borrower. The model covers:

- the record model of `catalog/models.py`: the status choices and their stored
  codes, the defaults of a new copy, the derived `is_overdue` property, the
  display strings (`display_genre`, `Author.__str__`, `BookInstance.__str__`),
  the declared listing orders, and the `on_delete=SET_NULL` behaviour of the
  three foreign keys;
- the rules the views of `catalog/views.py` apply on top of it: the home-page
  counts and per-session visit counter, the "my loans" and "all borrowed"
  listings, and the librarian's renewal of a copy's due date.

Dates are whole day numbers and the current date is a parameter. The database
is a `Catalogue` value holding one sequence of rows per table (plus the set of
user ids). The ORM calls become functions. `filter` is `Query.Filter`,
`order_by` is `Query.SortBy` (an insertion sort), and `count()` is the length
of a filtered sequence. The two places where the views change state are
imperative. `Views.Index` updates a `Session` object's key-value store.
`Views.Library.RenewBookLibrarian` overwrites one row of the `Library` store.
Each is proved against a specification function (`Views.RecordVisit`,
`Views.Renew`), and the lemmas are stated about those functions.

Files:

- `option.dfy`: `Option` and `Result`.
- `text.dfy`: `", ".join`, its inverse for comma-free parts, and lexicographic
  string order.
- `query.dfy`: filter, order-by, sortedness and primary-key uniqueness.
- `models.dfy`: module `Models`, the records of `catalog/models.py`.
- `views.dfy`: module `Views`, the rules of `catalog/views.py`.

## Model

| member | source | states |
|---|---|---|
| `Models.StatusCode` | catalog/models.py:92-98 | every status is stored in the one-character column as a code of at most one character (blank is the empty code) |
| `Models.ParseStatus` | catalog/models.py:85-98 | a submitted status is accepted exactly when it is blank or one of `m`, `o`, `a`, `r`, and the accepted value is the status whose code it is |
| `Models.StatusCodeRoundTrip` | catalog/models.py:85-98 | each status's stored code validates back to that status |
| `Models.StatusCodeInjective` | catalog/models.py:85-90 | two statuses share a code only if they are the same status, so filtering on a code selects exactly one status |
| `Models.NewBookInstance` | catalog/models.py:79-98 | a new copy keeps the supplied book, imprint, due date and borrower; its status is the supplied one, else `Maintenance` (code `m`); its id is the supplied one, else the generated id |
| `Models.NewInstanceDefaults` | catalog/models.py:82-98 | a copy created with the defaults is in maintenance, has no borrower and is not overdue on any day |
| `Models.IsOverdue` | catalog/models.py:108-111 | a copy without a due date is never overdue; with due date D it is not overdue on any day up to and including D and is overdue on every day after D |
| `Models.OverdueStaysOverdue` | catalog/models.py:111 | once overdue, a copy stays overdue on every later day |
| `Models.DisplayGenre` | catalog/models.py:39-41 | no genres gives the empty string; when the first (at most) three genre names are comma-free, the string splits back into exactly those names, so it holds at most two separators |
| `Text.Join` | catalog/models.py:41 | `", ".join` of no parts is the empty string; otherwise every part sits at its start offset (the earlier parts plus one separator after each), a separator sits right before every part but the first, and the length is all parts plus one separator between each neighbouring pair |
| `Text.SplitJoin` | catalog/models.py:41 | joining comma-free names with ", " and splitting again gives back the names |
| `Text.SplitAfter` | catalog/models.py:130 | a comma-free piece followed by ", " is split off as one piece |
| `Models.AuthorStr` | catalog/models.py:128-130 | for every author the string is the last name, then ", ", then the first name; with comma-free names it splits back into `[last, first]` |
| `Models.FindBook` | catalog/models.py:106 | following a copy's book reference finds the book with that id, or reports that no row has it |
| `Models.InstanceStr` | catalog/models.py:104-106 | a copy's string fails exactly when it has no book (or the book row is missing); otherwise it is `id + " (" + title + ")"` for the referenced book's title |
| `Models.InstanceStrDefined` | catalog/models.py:104-106 | in a consistent catalogue every copy that has a book has a string form |
| `Models.InstanceLabelInjective` | catalog/models.py:106 | as UUID text holds no space, a copy's string determines both its id and its book's title |
| `Models.FirstSpaceAfter` | catalog/models.py:106 | the first space of `id + " (" + ...` is right after the space-free id |
| `Text.StrLeTotal` | catalog/models.py:122 | any two strings are comparable in lexicographic order |
| `Text.StrLeTransitive` | catalog/models.py:122 | lexicographic string order is transitive |
| `Text.StrLeAntisymmetric` | catalog/models.py:122 | two strings ordered both ways are equal |
| `Models.AuthorLeTotalPreorder` | catalog/models.py:121-122 | ordering authors by last name, then first name, orders every pair and is transitive |
| `Models.AuthorLe` | catalog/models.py:121-122 | an author ordered before another has a lexicographically smaller or equal last name and, for equal last names, a smaller or equal first name |
| `Models.ListAuthors` | catalog/models.py:121-122 | the author listing holds every author exactly as often as the table does, in (last name, first name) lexicographic order |
| `Models.ByDueBack` | catalog/models.py:100-101 | ordering copies by due date orders every pair and is transitive; two dated copies compare by their dates, and a copy without a date goes before or after a dated one as the null placement says |
| `Models.OrderByDueBack` | catalog/models.py:100-101 | ordering copies by due date returns the same copies (as a multiset), with due dates non-decreasing |
| `Query.Filter` | catalog/views.py:16 | a filter keeps each row that satisfies the condition as often as the table holds it, and drops every other row |
| `Query.Insert` | catalog/views.py:79 | inserting a row into a listing adds exactly that row |
| `Query.SortBy` | catalog/views.py:79 | ordering a query set neither adds nor drops rows |
| `Query.InsertSorted` | catalog/views.py:79 | inserting into an ordered listing keeps it ordered |
| `Query.SortBySorted` | catalog/views.py:79 | an ordered query set is sorted by its key under any total preorder |
| `Query.FilterMember` | catalog/views.py:79 | every row a filter returns is a row of the table that satisfies the condition |
| `Query.HeadKeyFresh` | catalog/models.py:79 | in a table with a primary key, the first row's key occurs nowhere else |
| `Query.FilterUniqueBy` | catalog/models.py:79 | a filtered table still has distinct primary keys |
| `Models.DeleteAuthor` | catalog/models.py:29 | deleting an author removes exactly that author and nulls `author` on exactly the books that referenced it; all else is unchanged |
| `Models.DeleteBook` | catalog/models.py:80 | deleting a book removes exactly that book and nulls `book` on exactly the copies that referenced it; all else is unchanged |
| `Models.DeleteUser` | catalog/models.py:83 | deleting a user removes that user and nulls `borrower` on exactly the copies lent to them; all else is unchanged |
| `Models.DeleteAuthorConsistent` | catalog/models.py:29 | after deleting an author the catalogue has unique keys and no dangling reference, and no book refers to the deleted author |
| `Models.DeleteBookConsistent` | catalog/models.py:80 | after deleting a book the catalogue has unique keys and no dangling reference, and no copy refers to the deleted book |
| `Models.DeleteUserConsistent` | catalog/models.py:83 | after deleting a user the catalogue has no dangling reference, and no copy is lent to the deleted user |
| `Views.CountWithStatusOccurrences` | catalog/views.py:16-25 | the count of rows filtered on a status's code equals the number of copies in exactly that status |
| `Views.StatusPartition` | catalog/views.py:13-25 | the copies in the five statuses (blank included) add up to all copies |
| `Views.CountWithStatus` | catalog/views.py:16-25 | a status filter's count is at most the number of copies, and is zero exactly when no copy has that status code |
| `Views.StatusCounts` | catalog/views.py:13-25 | the four filtered counts are the per-status numbers, and with the blank copies they sum to the total |
| `Views.DashboardContext` | catalog/views.py:12-44 | the home page counts books, authors and copies, each status count is the number of copies in that status, the four counts are each at most the copy count, and they sum to it iff no status is blank |
| `Views.RecordVisit` | catalog/views.py:31-32 | after a visit the session's counter is one more than the stored value (0 if absent) and every other key is unchanged |
| `Views.VisitsSoFar` | catalog/views.py:31 | the visit count read from a session is the stored count, or 0 when the session has none |
| `Views.VisitsCounted` | catalog/views.py:31-32 | after n visits the counter has grown by exactly n; for a new session (count 0) it is n |
| `Views.Index` | catalog/views.py:8-47 | the home page puts the stored visit count (0 if absent) in the context, and afterwards the session holds that value plus one |
| `Views.LoanedBooksByUser` | catalog/views.py:78-79 | "my loans" holds exactly the copies whose borrower is the user and whose status is on loan, in non-decreasing due-date order |
| `Views.LoanedBooksAll` | catalog/views.py:92-93 | "all borrowed" holds exactly the copies on loan, in non-decreasing due-date order |
| `Views.UserLoansAmongAll` | catalog/views.py:78-93 | every user's "my loans" list is contained in the "all borrowed" list |
| `Views.AllLoansAreSomeonesLoans` | catalog/views.py:78-93 | every copy in "all borrowed" that has a borrower is in that borrower's "my loans" list |
| `Views.ProposedRenewalDate` | catalog/views.py:128 | the proposed renewal date lies exactly three weeks (21 days) after today |
| `Views.ProposedRenewalGivesThreeWeeks` | catalog/views.py:128-129 | on every day, a copy renewed to the proposed date is not overdue iff the day is at most today + 21 |
| `Views.FindInstance` | catalog/views.py:108 | looking up a copy by primary key finds a copy with that key, or reports not-found exactly when no copy has it |
| `Views.Renew` | catalog/views.py:104-136 | a key answers not-found (changing nothing) exactly when no copy has it; a GET renders the form proposing today + 21 days together with the stored copy of that key; an invalid POST renders the bound form with the stored copy and changes nothing; a valid POST sets only that copy's due date to the submitted date, leaves all other copies and tables unchanged, and redirects to the home page |
| `Views.RenewKeepsConsistent` | catalog/views.py:119-120 | a renewal keeps keys unique and references resolvable |
| `Views.RenewKeepsDashboard` | catalog/views.py:119-120 | a renewal changes no status, so every home-page count is unchanged |
| `Views.RenewedCopyDueOnNewDate` | catalog/views.py:119 | after a valid renewal to date d, the renewed copy is overdue exactly on the days after d |
| `Views.Library.RenewBookLibrarian` | catalog/views.py:104-136 | the renewal view's new store and response are those `Views.Renew` gives for the old store, and the store stays consistent |

## Left out

- Templates, `render`, URL reversing and redirect targets, pagination (`paginate_by`) and the list/detail/create/update/delete generic views. These are framework glue with no rules of their own. A redirect is modelled only as a response kind.
- Login and permission checks (`login_required`, `permission_required`, `LoginRequiredMixin`, `PermissionRequiredMixin`). The renewal and listing views are modelled for a caller who already passed them, and the current user is a parameter.
- `RenewBookForm` validation. `catalog/forms.py` is not part of this model, so the past / more-than-four-weeks rule is not modelled. A POST carries the cleaned renewal date when the form is valid and nothing when it is not.
- `uuid.uuid4()`: the generated id is a parameter. `date.today()`: today is a parameter. Image upload storage is left out.
- `Models.OrderByDueBack`: the placement of null due dates depends on the database, so it is a parameter (`NullsOrder`). The order of rows with equal due dates is not stated.
- `Query.SortBy`: stability is not stated. The database does not promise it either.
- `Models.AuthorStr`: the split-back property is stated for comma-free names only, since a comma inside a name cannot be told apart from the separator. The layout (last name, ", ", first name) is stated for every author.
- `Models.DisplayGenre`: the order of `genre.all()` is the database's and is taken as the order of `Book.genres`. The split-back property is stated for comma-free genre names only, since a comma inside a name cannot be told apart from a separator.
- `Models.ListAuthors`: strings compare by code point (a binary collation). Database collations that fold case or accents are not modelled.
- `Genre.__str__` and `Book.__str__` return a field unchanged. They are used as the field itself.
- Concurrent renewals of the same copy (last writer wins) and `save()`'s transaction behaviour are not modelled. The store is written by one request at a time.
- Deleting a genre (which removes its many-to-many links) is not modelled. It is not a `SET_NULL` key.
- Date overflow past year 9999 (Python's `date` raises) is not modelled. Dates are unbounded integers.
- `status == 'o'` is not required to imply that a borrower and a due date are set. The source does not enforce it, and the model keeps that looseness. A copy on loan without a due date appears in the loan listings at the null position.
- `LOAN_STATUS` lists four choices, and `blank=True` also admits the empty code. The model keeps that code as `Status.Blank`.
- Status codes outside `LOAN_STATUS` and the empty code cannot be represented. The model assumes `status` is written only through validated forms, and `BookInstanceAdmin` is the only writer in the source.
