/** The catalog's views that hold logic of their own: the home page (counts and
    the per-session visit counter), the "my borrowed books" query, and the
    librarian's loan-renewal workflow. */
module Views {
  import opened Models
  import opened Forms

  // ---------------------------------------------------------------------
  // Home page
  // ---------------------------------------------------------------------

  /** The session key under which the home page counts visits. */
  const NumVisitsKey: string := "num_visits"

  const HomeTitle: string := "Local Library Homepage"

  /** The browser session's dictionary; the home page reads and rewrites one entry. */
  class Session {
    var values: map<string, int>

    constructor (values: map<string, int>)
      ensures this.values == values
    {
      this.values := values;
    }

    /** `session.get(key, default)`. */
    function Get(key: string, default: int): int
      reads this
    {
      if key in values then values[key] else default
    }
  }

  /** The values the home page hands to its template. */
  datatype HomeContext = HomeContext(
    numBooks: nat,
    numInstances: nat,
    numInstancesAvailable: nat,
    numAuthors: nat,
    theTitle: string,
    numVisits: int)

  /** The copies whose status is 'a' (available). */
  function AvailableIds(instances: map<InstanceId, BookInstance>): set<InstanceId> {
    set k | k in instances && instances[k].status.Code() == 'a'
  }

  lemma SubsetCardinality(a: set<InstanceId>, b: set<InstanceId>)
    requires a <= b
    ensures |a| <= |b|
  {
    assert a * b == a && a + b == b && a - b == {};
    assert |a - b| + |b - a| + |a * b| == |a + b|;
  }

  /** The number of available copies: never more than all copies, and zero
      exactly when no copy is available. */
  function CountAvailable(instances: map<InstanceId, BookInstance>): (n: nat)
    ensures n <= |instances|
    ensures n == 0 <==> forall k :: k in instances ==> instances[k].status.Code() != 'a'
  {
    var avail := AvailableIds(instances);
    SubsetCardinality(avail, instances.Keys);
    assert forall k :: k in instances && instances[k].status.Code() == 'a' ==> k in avail;
    assert (forall k :: k in instances ==> instances[k].status.Code() != 'a') ==> avail == {};
    |avail|
  }

  /** The home page: counts the stored entities, shows the visit count held
      in the session (0 when absent) and stores that count plus one. */
  method Index(library: Library, session: Session) returns (ctx: HomeContext)
    modifies session
    ensures ctx.numBooks == |library.books|
    ensures ctx.numInstances == |library.instances|
    ensures ctx.numInstancesAvailable == |AvailableIds(library.instances)|
    ensures ctx.numInstancesAvailable <= ctx.numInstances
    ensures ctx.numAuthors == |library.authors|
    ensures ctx.theTitle == HomeTitle
    ensures NumVisitsKey in old(session.values) ==> ctx.numVisits == old(session.values)[NumVisitsKey]
    ensures NumVisitsKey !in old(session.values) ==> ctx.numVisits == 0
    ensures session.values == old(session.values)[NumVisitsKey := ctx.numVisits + 1]
  {
    var numBooks := |library.books|;
    var numInstances := |library.instances|;
    var numInstancesAvailable := CountAvailable(library.instances);
    var numAuthors := |library.authors|;

    var numVisits := session.Get(NumVisitsKey, 0);
    session.values := session.values[NumVisitsKey := numVisits + 1];

    ctx := HomeContext(numBooks, numInstances, numInstancesAvailable, numAuthors,
                       HomeTitle, numVisits);
  }

  // ---------------------------------------------------------------------
  // "My borrowed books"
  // ---------------------------------------------------------------------

  /** A copy as a list view shows it: its primary key and its record. */
  datatype Row = Row(pk: InstanceId, inst: BookInstance)

  /** The two filters of the query: borrowed by `user`, with status 'o'. */
  predicate OnLoanTo(inst: BookInstance, user: UserId) {
    inst.borrower == Some(user) && inst.status.Code() == 'o'
  }

  predicate Distinct<T(==)>(s: seq<T>) {
    forall i, j :: 0 <= i < j < |s| ==> s[i] != s[j]
  }

  /** `scan` is an order in which the database may return the rows of the
      table: every stored key exactly once. */
  predicate IsScanOf(instances: map<InstanceId, BookInstance>, scan: seq<InstanceId>) {
    && (forall i :: 0 <= i < |scan| ==> scan[i] in instances)
    && (forall k :: k in instances ==> k in scan)
    && Distinct(scan)
  }

  /** The model's sort order: ascending due date, with rows that have no due
      date first. `LoanedBooksByUser` does not promise where those rows go;
      that depends on the database. */
  predicate DueLe(a: Option<Date>, b: Option<Date>) {
    a.None? || (b.Some? && a.value <= b.value)
  }

  predicate SortedByDueBack(s: seq<Row>) {
    forall i, j :: 0 <= i < j < |s| ==> DueLe(s[i].inst.dueBack, s[j].inst.dueBack)
  }

  /** The rows of `scan`, in scan order, that are on loan to `user`. */
  function FilterOnLoanTo(instances: map<InstanceId, BookInstance>, scan: seq<InstanceId>,
                          user: UserId): (r: seq<Row>)
    requires forall i :: 0 <= i < |scan| ==> scan[i] in instances
    ensures forall row :: row in r ==>
      row.pk in scan && row.pk in instances && row.inst == instances[row.pk] && OnLoanTo(row.inst, user)
    ensures forall k :: k in scan && k in instances && OnLoanTo(instances[k], user) ==>
      Row(k, instances[k]) in r
    ensures Distinct(scan) ==> Distinct(r)
  {
    if scan == [] then []
    else
      var rest := FilterOnLoanTo(instances, scan[1..], user);
      var inst := instances[scan[0]];
      if OnLoanTo(inst, user) then [Row(scan[0], inst)] + rest else rest
  }

  lemma {:induction false} PrependSorted(x: Row, s: seq<Row>)
    requires SortedByDueBack(s)
    requires s != [] ==> DueLe(x.inst.dueBack, s[0].inst.dueBack)
    ensures SortedByDueBack([x] + s)
  {
    forall i, j | 0 <= i < j < |[x] + s|
      ensures DueLe(([x] + s)[i].inst.dueBack, ([x] + s)[j].inst.dueBack)
    {
      assert ([x] + s)[j] == s[j - 1];
      if i > 0 {
        assert ([x] + s)[i] == s[i - 1];
      }
    }
  }

  lemma PrependDistinct(a: Row, t: seq<Row>)
    requires a !in t && Distinct(t)
    ensures Distinct([a] + t)
  {
  }

  /** Puts `x` into the sorted `s` before the first row it does not follow. */
  function InsertByDueBack(x: Row, s: seq<Row>): (r: seq<Row>)
    requires SortedByDueBack(s)
    ensures SortedByDueBack(r)
    ensures multiset(r) == multiset(s) + multiset{x}
    ensures forall y :: y in r <==> y == x || y in s
    ensures |r| == |s| + 1
    ensures r[0] == x || (s != [] && r[0] == s[0])
  {
    if s == [] then [x]
    else if DueLe(x.inst.dueBack, s[0].inst.dueBack) then
      PrependSorted(x, s);
      [x] + s
    else
      var rest := InsertByDueBack(x, s[1..]);
      PrependSorted(s[0], rest);
      assert s == [s[0]] + s[1..];
      [s[0]] + rest
  }

  /** Sorts rows by due date (insertion sort): a sorted permutation of `s`. */
  function SortByDueBack(s: seq<Row>): (r: seq<Row>)
    ensures SortedByDueBack(r)
    ensures multiset(r) == multiset(s)
    ensures forall y :: y in r <==> y in s
  {
    if s == [] then []
    else
      var rest := SortByDueBack(s[1..]);
      assert s == [s[0]] + s[1..];
      InsertByDueBack(s[0], rest)
  }

  lemma {:induction false} InsertKeepsDistinct(x: Row, s: seq<Row>)
    requires SortedByDueBack(s) && Distinct(s) && x !in s
    ensures Distinct(InsertByDueBack(x, s))
  {
    if s != [] && !DueLe(x.inst.dueBack, s[0].inst.dueBack) {
      assert forall k :: 0 <= k < |s[1..]| ==> s[1..][k] != s[0];
      InsertKeepsDistinct(x, s[1..]);
      PrependDistinct(s[0], InsertByDueBack(x, s[1..]));
    } else if s != [] {
      PrependDistinct(x, s);
    }
  }

  /** Sorting a list without repeated rows repeats none. */
  lemma {:induction false} SortKeepsDistinct(s: seq<Row>)
    requires Distinct(s)
    ensures Distinct(SortByDueBack(s))
  {
    if s != [] {
      assert forall k :: 0 <= k < |s[1..]| ==> s[1..][k] != s[0];
      SortKeepsDistinct(s[1..]);
      InsertKeepsDistinct(s[0], SortByDueBack(s[1..]));
    }
  }

  /** `get_queryset` of the borrowed-books list: exactly the copies borrowed
      by `user` with status 'o', each once, in ascending order of due date. */
  function LoanedBooksByUser(instances: map<InstanceId, BookInstance>, scan: seq<InstanceId>,
                             user: UserId): (r: seq<Row>)
    requires IsScanOf(instances, scan)
    ensures forall row :: row in r ==>
      row.pk in instances && row.inst == instances[row.pk] && OnLoanTo(row.inst, user)
    ensures forall k :: k in instances && OnLoanTo(instances[k], user) ==> Row(k, instances[k]) in r
    ensures forall i, j :: 0 <= i < j < |r| ==> r[i].pk != r[j].pk
    ensures forall i, j :: 0 <= i < j < |r| && r[i].inst.dueBack.Some? && r[j].inst.dueBack.Some? ==>
      r[i].inst.dueBack.value <= r[j].inst.dueBack.value
  {
    var filtered := FilterOnLoanTo(instances, scan, user);
    SortKeepsDistinct(filtered);
    SortByDueBack(filtered)
  }

  // ---------------------------------------------------------------------
  // Loan renewal
  // ---------------------------------------------------------------------

  /** The permission a caller needs to renew loans. */
  const CanMarkReturned: string := "catalog.can_mark_returned"

  /** timedelta(weeks=3): the due date proposed on an empty form. */
  const ProposedRenewalDays: int := 3 * 7

  /** A request to the renewal page: a POST carrying the parsed renewal date,
      or any other method. */
  datatype Request = Post(renewalDate: Date) | Get

  /** The form shown on the renewal page: unbound with a proposed date, or
      bound to the submitted date with the error that cleaning raised. */
  datatype RenewForm = Unbound(initialDate: Date) | Invalid(submitted: Date, error: RenewalError)

  datatype RenewResponse =
    | RedirectToLogin
    | NotFound
    | RedirectToIndex
    | RenderRenewForm(form: RenewForm, bookInst: BookInstance)

  /** The store after renewing copy `pk` until `date`: only that copy's due
      date differs. */
  function WithDueBack(instances: map<InstanceId, BookInstance>, pk: InstanceId, date: Date)
    : (r: map<InstanceId, BookInstance>)
    requires pk in instances
    ensures r.Keys == instances.Keys
    ensures forall k :: k in instances && k != pk ==> r[k] == instances[k]
    ensures r[pk].dueBack == Some(date)
    ensures r[pk].book == instances[pk].book && r[pk].imprint == instances[pk].imprint
    ensures r[pk].status == instances[pk].status && r[pk].borrower == instances[pk].borrower
  {
    instances[pk := instances[pk].(dueBack := Some(date))]
  }

  /** The librarian's renewal view for copy `pk`, on the day `today`. */
  method RenewBookLibrarian(library: Library, user: User, pk: InstanceId, request: Request,
                            today: Date) returns (resp: RenewResponse)
    modifies library`instances
    // the permission gate comes before the lookup: its outcome does not depend on the store
    ensures !user.HasPerm(CanMarkReturned) ==>
      resp == RedirectToLogin && library.instances == old(library.instances)
    ensures user.HasPerm(CanMarkReturned) && pk !in old(library.instances) ==>
      resp == NotFound && library.instances == old(library.instances)
    ensures user.HasPerm(CanMarkReturned) && pk in old(library.instances) && request.Get? ==>
      && resp == RenderRenewForm(Unbound(today + ProposedRenewalDays), old(library.instances)[pk])
      && library.instances == old(library.instances)
    ensures user.HasPerm(CanMarkReturned) && pk in old(library.instances) && request.Post? ==>
      match CleanRenewalDate(request.renewalDate, today)
      case Rejected(e) =>
        && resp == RenderRenewForm(Invalid(request.renewalDate, e), old(library.instances)[pk])
        && library.instances == old(library.instances)
      case Accepted(d) =>
        && resp == RedirectToIndex
        && library.instances == WithDueBack(old(library.instances), pk, d)
    // only a successful renewal writes, and it writes the submitted date
    ensures library.instances != old(library.instances) ==> resp == RedirectToIndex
    ensures resp == RedirectToIndex <==>
      && user.HasPerm(CanMarkReturned) && pk in old(library.instances) && request.Post?
      && today <= request.renewalDate <= today + RenewalWindowDays
  {
    if !user.HasPerm(CanMarkReturned) {
      return RedirectToLogin;
    }
    if pk !in library.instances {
      return NotFound;
    }
    var bookInst := library.instances[pk];

    var form: RenewForm;
    if request.Post? {
      var cleaned := CleanRenewalDate(request.renewalDate, today);
      if cleaned.Accepted? {
        bookInst := bookInst.(dueBack := Some(cleaned.date));
        library.instances := library.instances[pk := bookInst];
        return RedirectToIndex;
      }
      form := Invalid(request.renewalDate, cleaned.error);
    } else {
      var proposedRenewalDate := today + ProposedRenewalDays;
      form := Unbound(proposedRenewalDate);
    }
    resp := RenderRenewForm(form, bookInst);
  }

  /** The date proposed on the empty form is still accepted when the form is
      submitted up to three weeks later. */
  lemma ProposedDateAccepted(today: Date, elapsed: int)
    requires 0 <= elapsed <= ProposedRenewalDays
    ensures CleanRenewalDate(today + ProposedRenewalDays, today + elapsed).Accepted?
  {
  }
}
