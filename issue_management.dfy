/** The issue list view: the conjunctive filter over the issue store, the
    two store updates (status change and assignment) that keep the issue
    open in the detail dialog in step with the store, clearing the filters,
    and the status summary above the list. */
module IssueManagement {
  import opened Types
  import opened Text
  import opened Tally
  import FilterSidebar
  import IssueDetailModal

  /** The issue test of `filteredIssues`, one early return per dimension
      in the order the view checks them. Lower-casing is ASCII. */
  predicate Matches(issue: Issue, f: FilterState, term: string)
  {
    var t := Lower(term);
    if term != "" && !Contains(Lower(issue.title), t) && !Contains(Lower(issue.description), t)
       && !Contains(Lower(issue.location.address), t) then false
    else if |f.category| > 0 && CategoryKey(issue.category) !in f.category then false
    else if |f.priority| > 0 && PriorityKey(issue.priority) !in f.priority then false
    else if |f.status| > 0 && StatusKey(issue.status) !in f.status then false
    else if f.location != "" && !Contains(Lower(issue.location.address), Lower(f.location)) then false
    else if f.dateRange.start.Some? && issue.createdAt < f.dateRange.start.value then false
    else if f.dateRange.end.Some? && issue.createdAt > f.dateRange.end.value then false
    else true
  }

  /** An issue passes exactly when every dimension lets it through: the
      search term is empty or occurs in the title, description or
      address; each non-empty list names the issue's value; the location
      is empty or occurs in the address; and the creation instant lies
      within each bound that is set, bounds included. */
  lemma MatchesIsConjunction(issue: Issue, f: FilterState, term: string)
    ensures Matches(issue, f, term) <==>
      && (term == "" || Contains(Lower(issue.title), Lower(term))
          || Contains(Lower(issue.description), Lower(term))
          || Contains(Lower(issue.location.address), Lower(term)))
      && (f.category == [] || CategoryKey(issue.category) in f.category)
      && (f.priority == [] || PriorityKey(issue.priority) in f.priority)
      && (f.status == [] || StatusKey(issue.status) in f.status)
      && (f.location == "" || Contains(Lower(issue.location.address), Lower(f.location)))
      && (f.dateRange.start.None? || f.dateRange.start.value <= issue.createdAt)
      && (f.dateRange.end.None? || issue.createdAt <= f.dateRange.end.value)
  {
  }

  /** `issues.filter(...)`. */
  function FilterIssues(issues: seq<Issue>, f: FilterState, term: string): (r: seq<Issue>)
    ensures |r| <= |issues|
    ensures forall x :: x in r <==> x in issues && Matches(x, f, term)
    ensures forall x :: multiset(r)[x] == if Matches(x, f, term) then multiset(issues)[x] else 0
  {
    if issues == [] then []
    else
      var rest := FilterIssues(issues[1..], f, term);
      assert issues == [issues[0]] + issues[1..];
      (if Matches(issues[0], f, term) then [issues[0]] else []) + rest
  }

  /** `a` is `b` with some elements left out, the rest in their order. */
  predicate IsSubsequence(a: seq<Issue>, b: seq<Issue>)
    decreases |b|
  {
    if a == [] then true
    else if b == [] then false
    else if a[0] == b[0] then IsSubsequence(a[1..], b[1..])
    else IsSubsequence(a, b[1..])
  }

  /** The filtered view keeps the store's order, so "Showing X of Y" has
      X <= Y. */
  lemma {:induction false} FilterIsSubsequence(issues: seq<Issue>, f: FilterState, term: string)
    ensures IsSubsequence(FilterIssues(issues, f, term), issues)
  {
    if issues != [] {
      FilterIsSubsequence(issues[1..], f, term);
      var kept := FilterIssues(issues, f, term);
      var rest := FilterIssues(issues[1..], f, term);
      if Matches(issues[0], f, term) {
        assert kept[0] == issues[0] && kept[1..] == rest;
      } else if rest != [] {
        assert kept == rest;
        assert rest[0] in rest && Matches(rest[0], f, term);
        assert rest[0] != issues[0];
      }
    }
  }

  /** With the initial (or cleared) filter and an empty search term the
      view is the store itself. */
  lemma {:induction false} EmptyFilterKeepsAll(issues: seq<Issue>)
    ensures FilterIssues(issues, EmptyFilters, "") == issues
  {
    if issues != [] {
      EmptyFilterKeepsAll(issues[1..]);
      assert Matches(issues[0], EmptyFilters, "");
      assert issues == [issues[0]] + issues[1..];
    }
  }

  /** The lists hold plain strings: a category list naming no real
      category lets no issue through. */
  lemma {:induction false} UnknownCategoryMatchesNothing(issues: seq<Issue>, f: FilterState, term: string)
    requires f.category != []
    requires forall k :: 0 <= k < |f.category| ==> ParseCategory(f.category[k]).None?
    ensures FilterIssues(issues, f, term) == []
  {
    if issues != [] {
      UnknownCategoryMatchesNothing(issues[1..], f, term);
      assert CategoryKey(issues[0].category) !in f.category;
    }
  }

  /** The two store transitions. Neither checks the current status. */
  datatype Update =
    | StatusChange(status: Status, at: Instant)
    | Assignment(staff: Assignee, at: Instant)

  /** `{ ...issue, status, updatedAt }` and
      `{ ...issue, assignedTo, status: 'assigned', updatedAt }`. */
  function Apply(issue: Issue, u: Update): (r: Issue)
    ensures r.updatedAt == u.at
    ensures r.status == (if u.StatusChange? then u.status else Assigned)
    ensures r.assignedTo == (if u.Assignment? then Some(u.staff) else issue.assignedTo)
    ensures r.(status := issue.status, updatedAt := issue.updatedAt, assignedTo := issue.assignedTo) == issue
  {
    match u
    case StatusChange(s, t) => issue.(status := s, updatedAt := t)
    case Assignment(a, t) => issue.(assignedTo := Some(a), status := Assigned, updatedAt := t)
  }

  /** Setting the status to `resolved` does not stamp `resolvedAt`, and
      assignment overrides any status, `in_progress` and `resolved`
      included. */
  lemma UpdatesIgnoreWorkflow(issue: Issue, s: Status, a: Assignee, t: Instant)
    ensures Apply(issue, StatusChange(Resolved, t)).resolvedAt == issue.resolvedAt
    ensures Apply(issue, Assignment(a, t)).status == Assigned
    ensures Apply(issue, StatusChange(s, t)).id == issue.id && Apply(issue, Assignment(a, t)).id == issue.id
  {
  }

  /** Applying the same update twice is applying it once. */
  lemma ApplyIdempotent(issue: Issue, u: Update)
    ensures Apply(Apply(issue, u), u) == Apply(issue, u)
  {
  }

  /** `prevIssues.map(issue => issue.id === id ? apply(issue) : issue)`. */
  function UpdateById(issues: seq<Issue>, id: string, u: Update): (r: seq<Issue>)
    ensures |r| == |issues|
    ensures forall i :: 0 <= i < |issues| ==>
      r[i] == if issues[i].id == id then Apply(issues[i], u) else issues[i]
  {
    if issues == [] then []
    else [if issues[0].id == id then Apply(issues[0], u) else issues[0]] + UpdateById(issues[1..], id, u)
  }

  /** After an assignment every issue with that id is assigned to the
      staff member, and the dialog no longer offers "Assign Staff" for it. */
  lemma AssignmentWithdrawsAssignAction(issues: seq<Issue>, id: string, a: Assignee, t: Instant, i: nat)
    requires i < |issues| && issues[i].id == id
    ensures UpdateById(issues, id, Assignment(a, t))[i].assignedTo == Some(a)
    ensures !IssueDetailModal.OffersAssign(UpdateById(issues, id, Assignment(a, t))[i])
  {
  }

  /** Neither update touches the reporter, the priority or the estimate,
      so the dialog's email line, "Mark Emergency" and "Est. Resolution"
      are shown after an update exactly when they were before. */
  lemma UpdatesKeepDialogDetails(issue: Issue, u: Update)
    ensures IssueDetailModal.ShowsReporterEmail(Apply(issue, u)) == IssueDetailModal.ShowsReporterEmail(issue)
    ensures IssueDetailModal.OffersEmergency(Apply(issue, u)) == IssueDetailModal.OffersEmergency(issue)
    ensures IssueDetailModal.ShowsEstimatedResolution(Apply(issue, u)) == IssueDetailModal.ShowsEstimatedResolution(issue)
  {
  }

  /** The issue open in the dialog gets the same change when its id is the
      updated one, and is left alone otherwise; no selection stays none. */
  function SyncSelection(selected: Option<Issue>, id: string, u: Update): (r: Option<Issue>)
    ensures selected.None? ==> r.None?
    ensures selected.Some? && selected.value.id == id ==> r == Some(Apply(selected.value, u))
    ensures selected.Some? && selected.value.id != id ==> r == selected
  {
    if selected.Some? && selected.value.id == id then Some(Apply(selected.value, u)) else selected
  }

  /** When the selection is a record of the store and both are updated
      with the same update, the selection is still a record of the store. */
  lemma UpdateKeepsSelectionInStore(issues: seq<Issue>, selected: Option<Issue>, id: string, u: Update)
    requires selected.Some? ==> selected.value in issues
    ensures SyncSelection(selected, id, u).Some? ==> SyncSelection(selected, id, u).value in UpdateById(issues, id, u)
  {
    if selected.Some? {
      var i :| 0 <= i < |issues| && issues[i] == selected.value;
      assert UpdateById(issues, id, u)[i] == SyncSelection(selected, id, u).value;
    }
  }

  /** The header summary; it has no `closed` entry. */
  datatype StatusSummary = StatusSummary(total: nat, newCount: nat, assignedCount: nat, inProgressCount: nat, resolvedCount: nat)

  /** `getStatusCounts` over the whole store: the four shown counts and
      the closed issues make up the total. */
  function StatusCounts(issues: seq<Issue>): (c: StatusSummary)
    ensures c.total == |issues|
    ensures c.newCount + c.assignedCount + c.inProgressCount + c.resolvedCount + CountStatus(issues, Closed) == c.total
  {
    StatusCountsPartition(issues);
    StatusSummary(|issues|, CountStatus(issues, New), CountStatus(issues, Assigned),
      CountStatus(issues, InProgress), CountStatus(issues, Resolved))
  }

  /** A status change moves an issue between counts but keeps the total. */
  lemma UpdateKeepsTotal(issues: seq<Issue>, id: string, u: Update)
    ensures StatusCounts(UpdateById(issues, id, u)).total == StatusCounts(issues).total
  {
  }

  /** The state of the issue list view. */
  class IssueStore {
    var issues: seq<Issue>
    var selected: Option<Issue>
    var searchTerm: string
    var filters: FilterState

    constructor (initial: seq<Issue>)
      ensures issues == initial && selected == None
      ensures searchTerm == "" && filters == EmptyFilters
      ensures FilteredIssues() == initial
    {
      issues := initial;
      selected := None;
      searchTerm := "";
      filters := EmptyFilters;
      EmptyFilterKeepsAll(initial);
    }

    /** The list the view shows. */
    function FilteredIssues(): (r: seq<Issue>)
      reads this
      ensures IsSubsequence(r, issues) && |r| <= |issues|
    {
      FilterIsSubsequence(issues, filters, searchTerm);
      FilterIssues(issues, filters, searchTerm)
    }

    /** The summary counts the whole store, not the filtered view. */
    function Counts(): (c: StatusSummary)
      reads this
      ensures c.total == |issues|
    {
      StatusCounts(issues)
    }

    /** The open issue is one of the store's records. */
    ghost predicate SelectionInSync()
      reads this
    {
      selected.Some? ==> selected.value in issues
    }

    /** `handleStatusUpdate`: the store and the selection each read the
      clock once, so they may be stamped with different instants. */
    method UpdateStatus(issueId: string, status: Status, storeNow: Instant, selectionNow: Instant)
      modifies this
      ensures issues == UpdateById(old(issues), issueId, StatusChange(status, storeNow))
      ensures selected == SyncSelection(old(selected), issueId, StatusChange(status, selectionNow))
      ensures searchTerm == old(searchTerm) && filters == old(filters)
      ensures old(SelectionInSync()) && storeNow == selectionNow ==> SelectionInSync()
    {
      if SelectionInSync() {
        UpdateKeepsSelectionInStore(issues, selected, issueId, StatusChange(status, storeNow));
      }
      issues := UpdateById(issues, issueId, StatusChange(status, storeNow));
      selected := SyncSelection(selected, issueId, StatusChange(status, selectionNow));
    }

    /** `handleAssign`: one update, with one clock reading, is applied to
      the store and to the selection. */
    method AssignStaff(issueId: string, staffId: string, staffName: string, department: string, now: Instant)
      modifies this
      ensures issues == UpdateById(old(issues), issueId, Assignment(Assignee(staffId, staffName, department), now))
      ensures selected == SyncSelection(old(selected), issueId, Assignment(Assignee(staffId, staffName, department), now))
      ensures searchTerm == old(searchTerm) && filters == old(filters)
      ensures old(SelectionInSync()) ==> SelectionInSync()
    {
      var u := Assignment(Assignee(staffId, staffName, department), now);
      if SelectionInSync() {
        UpdateKeepsSelectionInStore(issues, selected, issueId, u);
      }
      issues := UpdateById(issues, issueId, u);
      selected := SyncSelection(selected, issueId, u);
    }

    /** `clearFilters`: the initial filter and an empty search term, after
      which the view shows the whole store. */
    method ClearFilters()
      modifies this
      ensures filters == EmptyFilters && searchTerm == ""
      ensures issues == old(issues) && selected == old(selected)
      ensures FilteredIssues() == issues
      ensures FilterSidebar.ActiveFiltersCount(filters) == 0
    {
      filters := EmptyFilters;
      searchTerm := "";
      EmptyFilterKeepsAll(issues);
    }

    /** The sidebar's `onFiltersChange`. */
    method SetFilters(f: FilterState)
      modifies this
      ensures filters == f
      ensures issues == old(issues) && selected == old(selected) && searchTerm == old(searchTerm)
    {
      filters := f;
    }

    /** The search box. */
    method SetSearchTerm(term: string)
      modifies this
      ensures searchTerm == term
      ensures issues == old(issues) && selected == old(selected) && filters == old(filters)
    {
      searchTerm := term;
    }

    /** Clicking a card of the shown list opens it in the dialog. */
    method Select(issue: Issue)
      requires issue in FilteredIssues()
      modifies this
      ensures selected == Some(issue) && SelectionInSync()
      ensures issues == old(issues) && searchTerm == old(searchTerm) && filters == old(filters)
    {
      selected := Some(issue);
    }

    /** Closing the dialog. */
    method CloseDetail()
      modifies this
      ensures selected == None && SelectionInSync()
      ensures issues == old(issues) && searchTerm == old(searchTerm) && filters == old(filters)
    {
      selected := None;
    }

    /** Clicking option k of the dialog's "Update Status" menu; the dialog
      only exists while an issue is selected. */
    method ChooseStatusOption(k: nat, storeNow: Instant, selectionNow: Instant)
      requires selected.Some? && k < |IssueDetailModal.StatusOptions|
      modifies this
      ensures issues == UpdateById(old(issues), old(selected).value.id,
        StatusChange(IssueDetailModal.OptionStatus(k), storeNow))
      ensures selected == Some(Apply(old(selected).value, StatusChange(IssueDetailModal.OptionStatus(k), selectionNow)))
      ensures searchTerm == old(searchTerm) && filters == old(filters)
    {
      UpdateStatus(selected.value.id, IssueDetailModal.OptionStatus(k), storeNow, selectionNow);
    }

    /** The dialog's "Assign Staff" button: always the same staff member. */
    method AssignFromDetail(now: Instant)
      requires selected.Some?
      modifies this
      ensures issues == UpdateById(old(issues), old(selected).value.id,
        Assignment(IssueDetailModal.AssignedStaff, now))
      ensures selected == Some(Apply(old(selected).value, Assignment(IssueDetailModal.AssignedStaff, now)))
      ensures !IssueDetailModal.OffersAssign(selected.value)
      ensures searchTerm == old(searchTerm) && filters == old(filters)
    {
      var staff := IssueDetailModal.AssignedStaff;
      AssignStaff(selected.value.id, staff.id, staff.name, staff.department, now);
    }
  }
}
