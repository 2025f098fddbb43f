# Local library catalog: loan renewal and catalog queries

A Dafny model of the logic in a small library-catalog web application
(django_local_library). It covers three pieces:

- the loan-renewal form, whose clean step accepts a new due date only inside
  the closed window [today, today + 4 weeks];
- the librarian's renewal view, which works like a small per-request state
  machine. It checks the `catalog.can_mark_returned` permission, then looks up
  the copy (`BookInstance`) by primary key. A GET (any method other than POST)
  proposes today + 3 weeks. A POST validates the submitted date, and only if
  the date is valid does it overwrite that one copy's `due_back`;
- the home page (entity counts, including the copies with status `'a'`, and the
  per-session visit counter) and the "my borrowed books" query (copies
  borrowed by the caller with status `'o'`, ordered by `due_back`).

Dates are day numbers (as Python's `date.toordinal()` gives them), and "today"
is a parameter. The ORM tables are maps from primary key to record, held in a
`Library` object whose `instances` field the renewal view reassigns. The
session is a `Session` object whose dictionary the home page rewrites.

Files: `models.dfy` (module `Models`: entities and the store), `forms.dfy`
(module `Forms`: the renewal form), `views.dfy` (module `Views`: home page,
borrowed-books query, renewal view).

The renewal view uses `permission_required` with its defaults
(`raise_exception=False`). A caller without `catalog.can_mark_returned` is
therefore redirected to the login page, not refused with a 403. The model's
outcome for that caller is `RedirectToLogin`.

## Model

| member | source | states |
|---|---|---|
| Forms.CleanRenewalDate | catalog/forms.py:15-28 | A date is accepted exactly when today <= d <= today + 28, and an accepted date is returned unchanged. `DateInPast` is raised exactly when d < today, and `DateTooFar` exactly when d > today + 28. So every rejected date carries exactly one of the two errors. |
| Forms.WindowEndsAccepted | catalog/forms.py:21-25 | Both ends of the window (today and today + 28) are accepted. The day before today and today + 29 are each rejected with their own error. |
| Forms.NewYear2024Example | catalog/forms.py:21-28 | With today = 1 January 2024: 31 December 2023 is in the past, 29 January 2024 is accepted, and 30 January 2024 is too far. |
| Views.RenewBookLibrarian | catalog/views.py:120-151 | A caller without `catalog.can_mark_returned` is sent to login, whatever the store holds. A key with no copy gives not-found. A non-POST request renders an unbound form proposing today + 21 together with the stored copy. In these three cases no record changes. A POST whose date is rejected renders the bound form with that error, and no record changes. A POST whose date is accepted redirects to the index, and the new store equals `WithDueBack` of the old store. The store changes only on that redirect, and the redirect happens exactly for a permitted caller, an existing key, and a POST with a date inside the window. Books and authors are never touched. |
| Views.WithDueBack | catalog/views.py:136-139 | Renewing copy pk to date d keeps every key. It leaves every other copy equal to before, and sets pk's `due_back` to exactly d. pk's book, imprint, status and borrower keep their old values. |
| Views.ProposedDateAccepted | catalog/views.py:145-149 | The proposed date (today + 21) passes the form's clean step when it is submitted on any day from the proposal day up to three weeks later. |
| Views.FilterOnLoanTo | catalog/views.py:106 | The filtered rows are exactly the scanned copies whose borrower is the user and whose status is on loan, each paired with its stored record. If the scan has no repeated key, no row repeats. |
| Views.InsertByDueBack | catalog/views.py:106 | Inserting into a list sorted by `due_back` gives a sorted list one longer. It holds the old rows plus the new one (as a multiset), and it starts with either the new row or the old first row. |
| Views.SortByDueBack | catalog/views.py:106 | The result is ordered by `due_back` and is a permutation (equal multiset) of the input. |
| Views.InsertKeepsDistinct | catalog/views.py:106 | Inserting a row that is not yet present into a sorted list without repeats creates no repeat. |
| Views.SortKeepsDistinct | catalog/views.py:106 | Sorting a list without repeated rows repeats none. |
| Views.LoanedBooksByUser | catalog/views.py:105-106 | The borrowed list holds exactly the stored copies whose borrower is the user and whose status is `'o'`. Each is paired with its record, and no primary key appears twice. Among rows that have a due date, due dates never decrease along the list. |
| Views.CountAvailable | catalog/views.py:12-15 | The number of copies with status `'a'` never exceeds the number of copies. It is zero exactly when no copy is available. |
| Views.Index | catalog/views.py:6-35 | The context holds the counts of books, copies, available copies and authors, the page title, and the visit count read from the session (0 when the key is absent). The available count is at most the total. Afterwards the session equals the old session with `num_visits` set to the shown value + 1. |

## Left out

- Parsing of the submitted date string by the form's `DateField`: a POST
  carries an already-parsed day. A POST with a missing or unparseable date
  is therefore not modelled. The framework reports those with its own field
  errors.
- The system clock: `today` is a parameter of the renewal view and the form.
  The form reads the clock twice (catalog/forms.py:21 and :24), while the
  model uses one `today` for both reads. A request whose two reads straddle
  midnight is therefore not modelled.
- Date range: `Date` is an unbounded integer. Python's `date` stops at
  `date.max`, where `today + timedelta(weeks=4)` raises `OverflowError`; the
  model has no such limit.
- The ORM (`save()`, `get_object_or_404`, querysets) is replaced by maps
  keyed by primary key. Transactions and concurrent updates are not
  modelled, and neither is the concurrent read-then-write race on the session
  counter.
- Views.LoanedBooksByUser: where copies without a `due_back` land in the
  list is left unconstrained. The placement of NULL depends on the database.
  The sort puts them first, but the contract does not promise this. The order
  in which the database returns the unordered rows is the parameter `scan`.
  The contract does not constrain the order among equal due dates.
- The login requirement of the borrowed-books list (`LoginRequiredMixin`) and
  its pagination (`paginate_by`), which the framework supplies.
- Template rendering, redirects and translation of the error messages: the
  responses are data (`RenderRenewForm`, `RedirectToIndex`, `HomeContext`).
- Session values other than integers. The session is modelled as a map from
  key to integer.
- The generic list, detail, create, update and delete views, the admin
  registration and the URL routing. None of these has logic of its own.
- catalog/models.py is not part of this model. The catalog has five
  entities (Author, Genre, Book, BookInstance, Language; catalog/views.py:4).
  The model keeps Author, Book and BookInstance as records and Genre and
  Language as ids only. A copy's status is one of four codes `'m'`, `'o'`,
  `'a'`, `'r'`, and the queries compare against `'o'` and `'a'`
  (catalog/views.py:15,106). `InstanceId` stands for an opaque primary key:
  the renewal URL captures the key as a string of word characters and
  hyphens (`[-\w]+`, catalog/urls.py:19). The model needs only equality on
  it, and no property depends on its type.
