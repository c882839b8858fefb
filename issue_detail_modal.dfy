/** The issue detail dialog: its own copies of the colour tables, the five
    status choices of the "Update Status" menu, the fixed staff member of
    "Assign Staff", and the rules for which actions and details it shows.
    Its category label is IssueCard.FormatCategoryLabel, whose text the
    dialog repeats. */
module IssueDetailModal {
  import opened Types
  import opened Palette
  import IssueCard

  const CategoryColors: map<string, Style> := map[
    "pothole" := Style(Orange, false),
    "streetlight" := Style(Yellow, false),
    "trash" := Style(Green, false),
    "graffiti" := Style(Purple, false),
    "water_leak" := Style(Blue, false),
    "traffic_sign" := Style(Red, false),
    "other" := Style(Gray, false)]

  const PriorityColors: map<string, Style> := map[
    "urgent" := Style(Red, true),
    "high" := Style(Orange, true),
    "medium" := Style(Yellow, true),
    "low" := Style(Green, true)]

  const StatusColors: map<string, Style> := map[
    "new" := Style(Blue, false),
    "assigned" := Style(Purple, false),
    "in_progress" := Style(Yellow, false),
    "resolved" := Style(Green, false),
    "closed" := Style(Gray, false)]

  function CategoryColor(category: string): Style
  {
    Lookup(CategoryColors, category, "other")
  }

  function PriorityColor(priority: string): Style
  {
    Lookup(PriorityColors, priority, "medium")
  }

  function StatusColor(status: string): Style
  {
    Lookup(StatusColors, status, "new")
  }

  /** The dialog colours every string, known or not, exactly as the card
      does, fallbacks included. */
  lemma ColorsAgreeWithCard(key: string)
    ensures CategoryColor(key) == IssueCard.CategoryColor(key)
    ensures PriorityColor(key) == IssueCard.PriorityColor(key)
    ensures StatusColor(key) == IssueCard.StatusColor(key)
  {
    assert CategoryColors == IssueCard.CategoryColors;
    assert PriorityColors == IssueCard.PriorityColors;
    assert StatusColors == IssueCard.StatusColors;
  }

  /** The category badge of the dialog: the card's label of the issue's
      category, as long as its string form and without `_`. */
  function CategoryLabel(issue: Issue): (r: string)
    ensures |r| == |CategoryKey(issue.category)| && '_' !in r
  {
    IssueCard.FormatCategoryLabelNoUnderscore(CategoryKey(issue.category));
    IssueCard.FormatCategoryLabel(CategoryKey(issue.category))
  }

  datatype StatusOption = StatusOption(value: string, caption: string)

  const StatusOptions: seq<StatusOption> := [
    StatusOption("new", "New"),
    StatusOption("assigned", "Assigned"),
    StatusOption("in_progress", "In Progress"),
    StatusOption("resolved", "Resolved"),
    StatusOption("closed", "Closed")]

  /** The status handed to the status handler when option k is clicked
      (`status.value as Issue['status']`). */
  function OptionStatus(k: nat): (s: Status)
    requires k < |StatusOptions|
    ensures StatusKey(s) == StatusOptions[k].value
  {
    AllStatuses[k]
  }

  /** The menu offers every status exactly once, whatever the issue's
      current status: there is no transition rule. */
  lemma StatusOptionsOfferEveryStatus(s: Status)
    ensures exists k :: 0 <= k < |StatusOptions| && OptionStatus(k) == s
    ensures forall j, k :: 0 <= j < k < |StatusOptions| ==> OptionStatus(j) != OptionStatus(k)
  {
    match s
    case New => assert OptionStatus(0) == s;
    case Assigned => assert OptionStatus(1) == s;
    case InProgress => assert OptionStatus(2) == s;
    case Resolved => assert OptionStatus(3) == s;
    case Closed => assert OptionStatus(4) == s;
  }

  /** "Assign Staff" always assigns this staff member. */
  const AssignedStaff: Assignee := Assignee("staff1", "Mike Thompson", "Road Maintenance")

  /** "Assign Staff" is offered only while the issue has no assignee. */
  predicate OffersAssign(issue: Issue)
  {
    issue.assignedTo.None?
  }

  /** "Mark Emergency" is shown for urgent issues only. */
  predicate OffersEmergency(issue: Issue)
  {
    issue.priority == Urgent
  }

  /** The emergency test compares the priority's string form with
      `urgent`, which only the urgent priority has. */
  lemma EmergencyOnlyForUrgent(issue: Issue)
    ensures OffersEmergency(issue) <==> PriorityKey(issue.priority) == "urgent"
  {
    KeysRoundTrip(OtherCategory, issue.priority, New);
  }

  /** "Assigned To" details are shown when there is an assignee. */
  predicate ShowsAssignee(issue: Issue)
  {
    issue.assignedTo.Some?
  }

  /** The reporter's email is shown when present and non-empty. */
  predicate ShowsReporterEmail(issue: Issue)
  {
    issue.reportedBy.email.Some? && issue.reportedBy.email.value != ""
  }

  /** "Est. Resolution" is shown whenever an estimate exists, whatever the
      status. */
  predicate ShowsEstimatedResolution(issue: Issue)
  {
    issue.estimatedResolution.Some?
  }

  /** The dialog shows the estimate whenever the card does, and shows it
      where the card does not exactly for resolved issues that carry one. */
  lemma EstimateRulesDiffer(issue: Issue)
    ensures IssueCard.ShowsEstimatedCompletion(issue) ==> ShowsEstimatedResolution(issue)
    ensures ShowsEstimatedResolution(issue) && !IssueCard.ShowsEstimatedCompletion(issue)
      <==> issue.estimatedResolution.Some? && issue.status == Resolved
  {
  }

  /** The dialog offers assignment exactly when neither it nor the card
      shows an assignee. */
  lemma AssignOfferedIffUnassigned(issue: Issue)
    ensures OffersAssign(issue) <==> !ShowsAssignee(issue)
    ensures OffersAssign(issue) <==> !IssueCard.ShowsAssignee(issue)
  {
  }
}
