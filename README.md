# Civic issue dashboard: a verified model of the issue query and update engine

The dashboard lets city staff browse reported civic issues (potholes, broken
street lights, leaks, …), narrow them with a search box and a filter sidebar,
open one in a detail dialog to change its status or assign staff, and see
aggregate figures on an overview page. This project models the logic behind
those screens and proves properties of it:

- `types.dfy` (module `Types`): the `Issue` record, the three enumerations
  (category, priority, status) with their string forms, and `FilterState`.
- `issue_management.dfy` (module `IssueManagement`): the filter predicate and
  the filtered view, the status and assignment updates that replace records by
  id and keep the selected issue in step, and the status counts. The
  component's state (`issues`, `selected`, `searchTerm`, `filters`) is the class
  `IssueStore`, whose methods are the component's handlers.
- `filter_sidebar.dfy` (module `FilterSidebar`): each sidebar control turns
  the filter state into a new one; the active-filter count decides whether
  "Clear All" is offered.
- `dashboard.dfy` (module `Dashboard`): the status tiles and the derived closed
  count; the category breakdown (a loop that fills a map accumulator in
  first-appearance order, with a round-half-up percentage); and the "recent
  issues" view, an in-place stable sort of the shared issue array by
  `createdAt`, newest first, followed by a five-element prefix.
- `issue_card.dfy` and `issue_detail_modal.dfy`: the colour tables with their
  fallback entries, the `snake_case` to Title Case label, the status badge
  text, the status menu, the fixed staff member of "Assign Staff", and the
  display rules of card and dialog.
- Helper modules: `text.dfy` (ASCII case mapping, substring containment,
  `split`/`join`, first-occurrence `replace`), `palette.dfy` (colour tokens and
  table lookup with a fallback key), `tally.dfy` (counting by status,
  priority and category).

Timestamps are integer instants, and colours are opaque tokens (a hue plus
whether a border is drawn). The category label function appears three times in
the source with the same text (IssueCard.tsx:63-67, IssueDetailModal.tsx:78-82,
Dashboard.tsx:33-35); the model defines it once, as
`IssueCard.FormatCategoryLabel`. The card and the dashboard's breakdown
entries (`Dashboard.EntryOf`) call it directly, and the dialog's heading
label is `IssueDetailModal.CategoryLabel`, which applies it to the issue's
category.

The dashboard reorders the issue array it is given (`sort` works in place,
Dashboard.tsx:43), after the breakdown has been built from it
(Dashboard.tsx:47-49). `Dashboard.Render` models one render of the overview
page in that order, so a second render sees the array the first one sorted:
its tiles are the same (`Dashboard.SortKeepsTiles`), its recent list is the
same (`Dashboard.SortIdempotent`), but its breakdown lists categories in
newest-first order rather than the original order
(`Dashboard.SortReordersBreakdown`).

## Model

| member | source | states |
|---|---|---|
| Types.ParseCategory | src/types/index.ts:13 | a string names a category exactly when some category's string form equals it, and then its result is that category |
| Types.ParsePriority | src/types/index.ts:14 | the same for the four priorities |
| Types.ParseStatus | src/types/index.ts:15 | the same for the five statuses |
| Types.KeysRoundTrip | src/types/index.ts:13-15 | parsing the string form of any category, priority or status gives back that value |
| Types.EnumerationsComplete | src/types/index.ts:13-15 | there are exactly seven categories, four priorities and five statuses, and the lists of them are complete |
| Text.UpperChar | src/components/Issues/IssueCard.tsx:65 | upper-casing maps `_` to itself and nothing else to `_` |
| Text.Lower | src/components/Issues/IssueManagement.tsx:26-28 | `toLowerCase` keeps the length and lower-cases each ASCII character in place |
| Text.Upper | src/components/Issues/IssueCard.tsx:104 | `toUpperCase` keeps the length and upper-cases each ASCII character in place |
| Text.Split | src/components/Issues/IssueCard.tsx:64 | `split` gives at least one piece, no piece holds the separator, and joining the pieces with the separator restores the input |
| Text.ReplaceFirst | src/components/Issues/IssueCard.tsx:104 | `replace` with a one-character pattern changes only the first occurrence, and changes nothing when there is none |
| Tally.CountStatus | src/components/Issues/IssueManagement.tsx:118-121 | `filter(status).length` is at most the list's length |
| Tally.CountPriority | src/components/Dashboard/Dashboard.tsx:22 | `filter(priority).length` is at most the list's length |
| Tally.CountCategory | src/components/Dashboard/Dashboard.tsx:27-30 | the per-category count is at most the list's length |
| Tally.CountCategoryPositive | src/components/Dashboard/Dashboard.tsx:27-30 | a category's count is positive exactly when some issue has that category |
| Tally.StatusCountsPartition | src/types/index.ts:15 | the five status counts add up to the number of issues |
| IssueCard.CategoryColorsCoverCategories | src/components/Issues/IssueCard.tsx:19-30 | the card's category table has exactly the seven category strings as keys |
| IssueCard.PriorityColorsCoverPriorities | src/components/Issues/IssueCard.tsx:32-40 | the priority table has exactly the four priority strings as keys |
| IssueCard.StatusColorsCoverStatuses | src/components/Issues/IssueCard.tsx:42-51 | the status table has exactly the five status strings as keys |
| IssueCard.ColorFallbacks | src/components/Issues/IssueCard.tsx:19-51 | an unknown category string is coloured as `other`, an unknown priority as `medium`, an unknown status as `new`; known strings get their own entries |
| IssueCard.Capitalize | src/components/Issues/IssueCard.tsx:65 | `charAt(0).toUpperCase() + slice(1)` keeps the length, upper-cases the first character and keeps the rest |
| IssueCard.CapitalizeAll | src/components/Issues/IssueCard.tsx:64-66 | the `map` capitalises every piece, in order |
| IssueCard.CapitalizeIsTitleCase | src/components/Issues/IssueCard.tsx:64-66 | a piece without `_`, capitalised, agrees with the position-wise Title Case rule |
| IssueCard.TitleCaseConcat | src/components/Issues/IssueCard.tsx:63-67 | the Title Case rule carries over a `_` boundary: first piece, space, rest |
| IssueCard.JoinedTitleCase | src/components/Issues/IssueCard.tsx:63-67 | joining the capitalised pieces with spaces gives, position by position, the Title Case of the pieces joined with `_` |
| IssueCard.FormatCategoryLabelIsTitleCase | src/components/Issues/IssueCard.tsx:63-67 | the label has the input's length; each `_` becomes a space, the first character and each one after a `_` is upper-cased, every other character is kept |
| IssueCard.FormatCategoryLabelNoUnderscore | src/components/Issues/IssueCard.tsx:63-67 | the label has the input's length and contains no `_` |
| IssueCard.LabelFromTitleCase | src/components/Issues/IssueCard.tsx:63-67 | any string obeying the Title Case rule for an input is that input's label (the rule determines the label) |
| IssueCard.CategoryLabels | src/components/Issues/IssueCard.tsx:63-67 | the seven category labels, e.g. `water_leak` gives "Water Leak" and `streetlight` gives "Streetlight" |
| IssueCard.StatusBadge | src/components/Issues/IssueCard.tsx:104 | the badge keeps the length, turns the first `_` (if any) into a space and upper-cases every other character |
| IssueCard.StatusBadgeKeepsLaterUnderscores | src/components/Issues/IssueCard.tsx:104 | a `_` after the first one stays in the badge |
| IssueCard.BadgeFromChars | src/components/Issues/IssueCard.tsx:104 | any string that obeys the badge rule position by position is the badge |
| IssueCard.StatusBadges | src/components/Issues/IssueCard.tsx:104 | the five badges, e.g. `in_progress` gives "IN PROGRESS" |
| IssueCard.StatusBadgesHaveNoUnderscore | src/components/Issues/IssueCard.tsx:104 | no status badge contains `_` |
| IssueCard.CategoryColor | src/components/Issues/IssueCard.tsx:19-30 | the card's category colour: the table entry for a known string, the `other` entry for any other (stated by IssueCard.ColorFallbacks and IssueCard.CategoryColorsCoverCategories) |
| IssueCard.PriorityColor | src/components/Issues/IssueCard.tsx:32-40 | the card's priority colour, falling back to `medium` (stated by IssueCard.ColorFallbacks and IssueCard.PriorityColorsCoverPriorities) |
| IssueCard.StatusColor | src/components/Issues/IssueCard.tsx:42-51 | the card's status colour, falling back to `new` (stated by IssueCard.ColorFallbacks and IssueCard.StatusColorsCoverStatuses) |
| IssueCard.FormatCategoryLabel | src/components/Issues/IssueCard.tsx:63-67 | split at `_`, capitalise each piece, join with spaces (its meaning is stated by IssueCard.FormatCategoryLabelIsTitleCase, IssueCard.LabelFromTitleCase and IssueCard.CategoryLabels) |
| IssueCard.ShowsAssignee | src/components/Issues/IssueCard.tsx:124 | the card shows the assignee exactly when there is one (used by IssueDetailModal.AssignOfferedIffUnassigned) |
| IssueCard.ShowsEstimatedCompletion | src/components/Issues/IssueCard.tsx:131 | the card shows the estimate when one exists and the issue is not resolved (used by IssueDetailModal.EstimateRulesDiffer) |
| IssueDetailModal.ColorsAgreeWithCard | src/components/Issues/IssueDetailModal.tsx:44-76 | for every string, known or not, the dialog's three colour lookups give what the card's give |
| IssueDetailModal.CategoryColor | src/components/Issues/IssueDetailModal.tsx:44-55 | the dialog's category colour, falling back to `other` (equal to the card's by IssueDetailModal.ColorsAgreeWithCard) |
| IssueDetailModal.PriorityColor | src/components/Issues/IssueDetailModal.tsx:57-65 | the dialog's priority colour, falling back to `medium` (equal to the card's by IssueDetailModal.ColorsAgreeWithCard) |
| IssueDetailModal.StatusColor | src/components/Issues/IssueDetailModal.tsx:67-76 | the dialog's status colour, falling back to `new` (equal to the card's by IssueDetailModal.ColorsAgreeWithCard) |
| IssueDetailModal.CategoryLabel | src/components/Issues/IssueDetailModal.tsx:130 | the dialog's category label keeps the length of the category's string and contains no `_` |
| IssueDetailModal.OptionStatus | src/components/Issues/IssueDetailModal.tsx:84-90 | option k hands over the status whose string form is that option's value |
| IssueDetailModal.StatusOptionsOfferEveryStatus | src/components/Issues/IssueDetailModal.tsx:260-266 | every status, whatever the current one, is offered by exactly one option |
| IssueDetailModal.EmergencyOnlyForUrgent | src/components/Issues/IssueDetailModal.tsx:288 | "Mark Emergency" is shown exactly when the priority's string is `urgent` |
| IssueDetailModal.EstimateRulesDiffer | src/components/Issues/IssueDetailModal.tsx:193 | the dialog shows the estimate whenever the card does, and in addition exactly for resolved issues that have one |
| IssueDetailModal.AssignOfferedIffUnassigned | src/components/Issues/IssueDetailModal.tsx:277 | "Assign Staff" is offered exactly when no assignee is shown, by the dialog or by the card |
| IssueDetailModal.AssignedStaff | src/components/Issues/IssueDetailModal.tsx:92-96 | the fixed assignee `staff1`, Mike Thompson, Road Maintenance (used by IssueManagement.IssueStore.AssignFromDetail) |
| IssueDetailModal.OffersAssign | src/components/Issues/IssueDetailModal.tsx:277 | "Assign Staff" is offered exactly when the issue has no assignee (related to the card by IssueDetailModal.AssignOfferedIffUnassigned) |
| IssueDetailModal.OffersEmergency | src/components/Issues/IssueDetailModal.tsx:288 | "Mark Emergency" is offered for urgent issues (tied to the string test by IssueDetailModal.EmergencyOnlyForUrgent) |
| IssueDetailModal.ShowsAssignee | src/components/Issues/IssueDetailModal.tsx:182 | the dialog shows the assignee exactly when there is one |
| IssueDetailModal.ShowsReporterEmail | src/components/Issues/IssueDetailModal.tsx:176 | the reporter's email is shown when present and non-empty (kept by updates, IssueManagement.UpdatesKeepDialogDetails) |
| IssueDetailModal.ShowsEstimatedResolution | src/components/Issues/IssueDetailModal.tsx:193 | the dialog shows the estimate whenever one exists (compared with the card by IssueDetailModal.EstimateRulesDiffer) |
| FilterSidebar.WithList | src/components/Issues/FilterSidebar.tsx:47 | the spread replaces the named list and keeps the other lists, the location and the dates |
| FilterSidebar.RemoveAll | src/components/Issues/FilterSidebar.tsx:44 | the filtered list holds exactly the other values, each as often as before, and none of the removed one, and is no longer |
| FilterSidebar.RemoveAllKeepsOrder | src/components/Issues/FilterSidebar.tsx:44 | the filtered list keeps the surviving values in their original order |
| FilterSidebar.Toggle | src/components/Issues/FilterSidebar.tsx:41-45 | after a toggle the value is in the list exactly when it was not before; every other value keeps its membership; an absent value is appended at the end of the list |
| FilterSidebar.RemoveAllAbsent | src/components/Issues/FilterSidebar.tsx:44 | removing an absent value leaves the list as it is |
| FilterSidebar.RemoveAllKeepsNoDuplicates | src/components/Issues/FilterSidebar.tsx:44 | removal keeps a list free of duplicates |
| FilterSidebar.RemoveAllOnce | src/components/Issues/FilterSidebar.tsx:44 | in a duplicate-free list, removing a present value shortens it by one |
| FilterSidebar.ToggleKeepsNoDuplicates | src/components/Issues/FilterSidebar.tsx:41-45 | toggling keeps a list free of duplicates |
| FilterSidebar.ToggleTwiceRestores | src/components/Issues/FilterSidebar.tsx:41-45 | toggling an absent value twice restores the list exactly |
| FilterSidebar.ToggleFilter | src/components/Issues/FilterSidebar.tsx:41-48 | a checkbox flips the value's membership in its own list and changes no other list, the location or the dates |
| FilterSidebar.ChangeLocation | src/components/Issues/FilterSidebar.tsx:50-52 | only the location changes |
| FilterSidebar.ChangeStart | src/components/Issues/FilterSidebar.tsx:165-173 | only the start bound changes; the end bound and all else are kept |
| FilterSidebar.ChangeEnd | src/components/Issues/FilterSidebar.tsx:174-182 | only the end bound changes; the start bound and all else are kept |
| FilterSidebar.ActiveFiltersCount | src/components/Issues/FilterSidebar.tsx:54-57 | the count is zero exactly when all three lists and the location are empty, and is at least the total length of the lists |
| FilterSidebar.OffersClearAll | src/components/Issues/FilterSidebar.tsx:64-71 | "Clear All" is offered exactly when the active count is positive (stated for date-only filters by FilterSidebar.DateOnlyFilterOffersNoClearAll) |
| FilterSidebar.DateOnlyFilterOffersNoClearAll | src/components/Issues/FilterSidebar.tsx:54-71 | a filter whose lists and location are empty does not offer "Clear All", and setting its start or its end bound to any value, or clearing it, does not make it offered |
| FilterSidebar.ToggleMovesActiveCount | src/components/Issues/FilterSidebar.tsx:41-57 | with duplicate-free lists a toggle lowers the active count by one (checked value) or raises it by one (unchecked value) |
| IssueManagement.Matches | src/components/Issues/IssueManagement.tsx:26-63 | the filter callback with its early returns, in source order (its meaning is stated by IssueManagement.MatchesIsConjunction) |
| IssueManagement.MatchesIsConjunction | src/components/Issues/IssueManagement.tsx:26-63 | the early-return filter keeps an issue exactly when the search term, the three lists, the location and both date bounds all admit it |
| IssueManagement.FilterIssues | src/components/Issues/IssueManagement.tsx:23-67 | the filtered view holds exactly the issues that match, each as many times as it occurs in the list, and no other issue; it is no longer than the list |
| IssueManagement.FilterIsSubsequence | src/components/Issues/IssueManagement.tsx:24 | the filtered view is an order-preserving subsequence of the issues |
| IssueManagement.EmptyFilterKeepsAll | src/components/Issues/IssueManagement.tsx:15-21 | with the initial empty filter and no search term, the view is the whole list |
| IssueManagement.UnknownCategoryMatchesNothing | src/components/Issues/IssueManagement.tsx:33-35 | a non-empty category list none of whose strings names a category filters out every issue |
| IssueManagement.Apply | src/components/Issues/IssueManagement.tsx:69-97 | an update sets `updatedAt`; a status change sets the status, an assignment sets the assignee and the status `assigned`; no other field changes |
| IssueManagement.UpdatesIgnoreWorkflow | src/components/Issues/IssueManagement.tsx:84-97 | resolving does not set `resolvedAt`, assigning forces `assigned` whatever the prior status, and neither changes the id |
| IssueManagement.ApplyIdempotent | src/components/Issues/IssueManagement.tsx:69-97 | applying the same update twice is applying it once |
| IssueManagement.UpdateById | src/components/Issues/IssueManagement.tsx:70-76 | every issue with the id gets the update, every other one is untouched, and the length is kept |
| IssueManagement.AssignmentWithdrawsAssignAction | src/components/Issues/IssueManagement.tsx:91-97 | after assignment the updated issue has the new assignee, so the dialog no longer offers "Assign Staff" for it |
| IssueManagement.UpdatesKeepDialogDetails | src/components/Issues/IssueManagement.tsx:69-97 | a status change or an assignment leaves whether the dialog shows the reporter's email, "Mark Emergency" and the estimate as it was |
| IssueManagement.SyncSelection | src/components/Issues/IssueManagement.tsx:78-81 | a selected issue with the id gets the same update, another selection is kept, no selection stays none |
| IssueManagement.UpdateKeepsSelectionInStore | src/components/Issues/IssueManagement.tsx:69-101 | when the selection was an issue of the store and both use one instant, the updated selection is an issue of the updated store |
| IssueManagement.StatusCounts | src/components/Issues/IssueManagement.tsx:115-123 | the total is the number of issues, and the four counts plus the closed issues add up to it |
| IssueManagement.UpdateKeepsTotal | src/components/Issues/IssueManagement.tsx:115-118 | updates never change the total |
| IssueManagement.IssueStore.constructor | src/components/Issues/IssueManagement.tsx:10-21 | the store starts with the given issues, no selection, no search term and the empty filter, so the view shows every issue |
| IssueManagement.IssueStore.FilteredIssues | src/components/Issues/IssueManagement.tsx:23-67 | the view is a subsequence of the store's issues, so "Showing X of Y" has X ≤ Y |
| IssueManagement.IssueStore.Counts | src/components/Issues/IssueManagement.tsx:115-125 | the counts are taken over the whole store, not the view |
| IssueManagement.IssueStore.UpdateStatus | src/components/Issues/IssueManagement.tsx:69-82 | the store and the selection get the status change (with their own instants); search and filters are kept; with one instant a selection taken from the store stays one |
| IssueManagement.IssueStore.AssignStaff | src/components/Issues/IssueManagement.tsx:84-102 | the store and the selection get the assignment with one instant; search and filters are kept; a selection taken from the store stays one |
| IssueManagement.IssueStore.ClearFilters | src/components/Issues/IssueManagement.tsx:104-113 | filter and search are reset, issues and selection are kept, the view becomes the whole list and no filter is active |
| IssueManagement.IssueStore.SetFilters | src/components/Issues/IssueManagement.tsx:133 | the sidebar's new filter state replaces the old one, nothing else changes |
| IssueManagement.IssueStore.SetSearchTerm | src/components/Issues/IssueManagement.tsx:184 | only the search term changes |
| IssueManagement.IssueStore.Select | src/components/Issues/IssueManagement.tsx:246 | clicking a shown card selects that issue, which belongs to the store |
| IssueManagement.IssueStore.CloseDetail | src/components/Issues/IssueManagement.tsx:258 | closing the dialog clears the selection and nothing else |
| IssueManagement.IssueStore.ChooseStatusOption | src/components/Issues/IssueDetailModal.tsx:260-266 | choosing option k changes the selected issue's status to that option's status, in the store and in the selection |
| IssueManagement.IssueStore.AssignFromDetail | src/components/Issues/IssueDetailModal.tsx:92-96 | "Assign Staff" assigns the fixed staff member Mike Thompson (`staff1`, Road Maintenance) to the selected issue, after which the button is withdrawn |
| Dashboard.StatusCounts | src/components/Dashboard/Dashboard.tsx:15-24 | the total is the number of issues, and the four status counts and the urgent count each stay within it |
| Dashboard.ClosedTile | src/components/Dashboard/Dashboard.tsx:246 | the closed tile is the total minus the four other counts (shown to be the closed count by Dashboard.ClosedTileCountsClosed) |
| Dashboard.ClosedTileCountsClosed | src/components/Dashboard/Dashboard.tsx:246 | the closed tile, total minus the four other counts, is the number of closed issues |
| Dashboard.FirstAppearance | src/components/Dashboard/Dashboard.tsx:27-32 | the breakdown's categories are distinct |
| Dashboard.FirstAppearanceMembers | src/components/Dashboard/Dashboard.tsx:27-32 | a category is in the breakdown exactly when some issue has it |
| Dashboard.FirstAppearanceExtendsPrefix | src/components/Dashboard/Dashboard.tsx:27-32 | the first-appearance order of a prefix is a prefix of the whole list's |
| Dashboard.Percentage | src/components/Dashboard/Dashboard.tsx:37 | the percentage is count·100/total rounded half up: the exact value lies in [p − ½, p + ½) |
| Dashboard.PercentageRange | src/components/Dashboard/Dashboard.tsx:37 | a count within the total gives at most 100, the whole total gives 100, a zero count gives 0 |
| Dashboard.Breakdown | src/components/Dashboard/Dashboard.tsx:26-39 | an empty list gives no entries (no division happens), otherwise one entry per distinct category |
| Dashboard.CategoryCountsSnoc | src/components/Dashboard/Dashboard.tsx:28 | one more issue adds one to the summed counts of distinct categories exactly when its category is listed |
| Dashboard.CategoryCountsAppend | src/components/Dashboard/Dashboard.tsx:28 | listing one more category adds its count to the sum |
| Dashboard.CategoryCountsCoverAll | src/components/Dashboard/Dashboard.tsx:27-30 | the counts of the categories present add up to the number of issues |
| Dashboard.BreakdownSumsToTotal | src/components/Dashboard/Dashboard.tsx:26-39 | the breakdown's counts add up to the total |
| Dashboard.EntryOf | src/components/Dashboard/Dashboard.tsx:32-38 | one breakdown entry: the category's label, count and percentage of the total (stated entry by entry by Dashboard.BreakdownEntries) |
| Dashboard.BreakdownEntries | src/components/Dashboard/Dashboard.tsx:32-38 | entry k carries the label of the k-th category to appear, that category's (positive) count and a percentage of at most 100 |
| Dashboard.BreakdownLabelsDistinct | src/components/Dashboard/Dashboard.tsx:32-35 | no two entries have the same label |
| Dashboard.AbsentCategoryNotCounted | src/components/Dashboard/Dashboard.tsx:27-30 | a category missing from the breakdown has no issues |
| Dashboard.TallyStep | src/components/Dashboard/Dashboard.tsx:28 | one accumulator step keeps the accumulator equal to the counts of the issues seen, with keys in first-appearance order |
| Dashboard.CountByCategory | src/components/Dashboard/Dashboard.tsx:27-30 | the `reduce` loop ends with a map holding exactly the present categories, each with its count, and keys in first-appearance order |
| Dashboard.CategoryBreakdown | src/components/Dashboard/Dashboard.tsx:26-39 | building entries from the accumulator gives the breakdown |
| Dashboard.CategoryColor | src/components/Dashboard/Dashboard.tsx:60-71 | a label absent from the dashboard's table gets the `Other` colour |
| Dashboard.PriorityColor | src/components/Dashboard/Dashboard.tsx:73-81 | an unknown priority gets the `medium` colour |
| Dashboard.BreakdownColors | src/components/Dashboard/Dashboard.tsx:60-71 | the colour each breakdown entry gets as written: pothole and streetlight entries fall back to grey |
| Dashboard.LabelColors | src/components/Dashboard/Dashboard.tsx:60-71 | "Pothole" and "Streetlight" are not keys of the table; the colour of each generated label |
| Dashboard.IntendedCategoryColor | src/components/Dashboard/Dashboard.tsx:60-71 | with the table keyed by the generated labels, a label in the table gets its own entry and any string outside it gets the grey `Other` entry |
| Dashboard.IntendedColorsMatchCard | src/components/Dashboard/Dashboard.tsx:60-71 | with that table every breakdown entry gets the card's colour for its category |
| Dashboard.HueByLabel | src/components/Dashboard/Dashboard.tsx:60-71 | each generated label finds the card's colour of its category in the label-keyed table |
| Dashboard.MisKeyedLabelsDifferFromCard | src/components/Dashboard/Dashboard.tsx:60-71 | as written, the pothole and streetlight entries are grey and differ from their card colours |
| Dashboard.PriorityColorsCoverPriorities | src/components/Dashboard/Dashboard.tsx:73-81 | every priority has an entry, of the card's hue without the border |
| Dashboard.Insert | src/components/Dashboard/Dashboard.tsx:43 | inserting adds one element |
| Dashboard.SortByRecency | src/components/Dashboard/Dashboard.tsx:43 | sorting keeps the length |
| Dashboard.InsertPermutes | src/components/Dashboard/Dashboard.tsx:43 | inserting adds exactly the new issue to the multiset |
| Dashboard.SortPermutes | src/components/Dashboard/Dashboard.tsx:43 | the sorted list is a permutation of the input |
| Dashboard.InsertKeepsSorted | src/components/Dashboard/Dashboard.tsx:43 | inserting into a newest-first list keeps it newest-first |
| Dashboard.SortIsSorted | src/components/Dashboard/Dashboard.tsx:43 | the result is ordered by `createdAt`, newest first |
| Dashboard.InsertIsStable | src/components/Dashboard/Dashboard.tsx:43 | insertion puts the new issue after every issue with its instant, keeping the order of those |
| Dashboard.SortIsStable | src/components/Dashboard/Dashboard.tsx:43 | issues with equal `createdAt` keep their input order |
| Dashboard.AtMember | src/components/Dashboard/Dashboard.tsx:43 | the issues picked at an instant come from the list and have that instant |
| Dashboard.OldestIsLast | src/components/Dashboard/Dashboard.tsx:43 | in a newest-first list no issue is older than the last |
| Dashboard.SameOldest | src/components/Dashboard/Dashboard.tsx:43 | two newest-first lists with the same issues at each instant end with the same instant |
| Dashboard.DropLast | src/components/Dashboard/Dashboard.tsx:43 | the issues at an instant split into those before the last element and the last element |
| Dashboard.SameLast | src/components/Dashboard/Dashboard.tsx:43 | two such lists end with the same issue, and agree at that instant without it |
| Dashboard.OtherInstant | src/components/Dashboard/Dashboard.tsx:43 | dropping last elements of another instant keeps the agreement at this instant |
| Dashboard.SortedAndStableIsUnique | src/components/Dashboard/Dashboard.tsx:43 | a newest-first order is fixed by the order of issues at each instant |
| Dashboard.StableSortsAgree | src/components/Dashboard/Dashboard.tsx:43 | every stable newest-first sort of the input gives the model's result |
| Dashboard.InsertSplit | src/components/Dashboard/Dashboard.tsx:43 | the older tail of a list past the insertion point is untouched by the insertion |
| Dashboard.SortStep | src/components/Dashboard/Dashboard.tsx:43 | sorting one more element of the input inserts it into the sorted prefix |
| Dashboard.ShiftStep | src/components/Dashboard/Dashboard.tsx:43 | moving an older element up by one keeps the shifting invariant with the gap one lower |
| Dashboard.FillGap | src/components/Dashboard/Dashboard.tsx:43 | filling the gap lays the array out as sorted front, new issue, sorted rest, untouched tail |
| Dashboard.PlaceStep | src/components/Dashboard/Dashboard.tsx:43 | where shifting stops, writing the issue into the gap completes the insertion and leaves the tail |
| Dashboard.InsertLatest | src/components/Dashboard/Dashboard.tsx:43 | one pass inserts the element at i into the sorted front `a[..i]` and leaves the rest of the array |
| Dashboard.SortInPlace | src/components/Dashboard/Dashboard.tsx:43 | the array ends in the stable newest-first order of its old contents |
| Dashboard.AddressHead | src/components/Dashboard/Dashboard.tsx:186 | `split(',')[0]` is the longest prefix of the address without a comma |
| Dashboard.RecentIssues | src/components/Dashboard/Dashboard.tsx:41-45 | the shared array is reordered in place, and the result is its first min(5, n) issues, newest first |
| Dashboard.RecentIsNewest | src/components/Dashboard/Dashboard.tsx:41-45 | the recent issues are min(5, n) issues of the input, none older than any issue left out |
| Dashboard.Render | src/components/Dashboard/Dashboard.tsx:15-49 | one render takes the tiles and the breakdown from the array as it was, then sorts the array in place and returns its first min(5, n) issues |
| Dashboard.SortIdempotent | src/components/Dashboard/Dashboard.tsx:43 | sorting an already sorted array again changes nothing, so each later render lists the same recent issues |
| Dashboard.InsertKeepsStatusCount | src/components/Dashboard/Dashboard.tsx:43 | inserting an issue adds one to the count of its status and changes no other status count |
| Dashboard.InsertKeepsPriorityCount | src/components/Dashboard/Dashboard.tsx:43 | inserting an issue adds one to the count of its priority and changes no other priority count |
| Dashboard.SortKeepsCounts | src/components/Dashboard/Dashboard.tsx:43 | sorting changes no status count and no priority count |
| Dashboard.SortKeepsTiles | src/components/Dashboard/Dashboard.tsx:15-24 | the tiles of a render after the array was sorted are the tiles of the first render |
| Dashboard.PairAppearance | src/components/Dashboard/Dashboard.tsx:27-32 | two issues of different categories give their categories in array order |
| Dashboard.SortPair | src/components/Dashboard/Dashboard.tsx:43 | of two issues, the newer is sorted first |
| Dashboard.SortReordersBreakdown | src/components/Dashboard/Dashboard.tsx:27-49 | an older issue of one category before a newer one of another: the first render's breakdown lists them in array order, the next render's (after the sort) in the opposite order |

## Left out

- The login hook (`src/hooks/useAuth.ts`): local storage, timers and asynchronous login are I/O; it has no logic beyond checking two non-empty strings.
- `src/App.tsx` and `src/components/Layout/Sidebar.tsx`: view routing and layout only.
- `src/data/mockData.ts`: fixture data; the model works over any list of issues, and no example over the fixtures is stated.
- Date strings: `createdAt`, `updatedAt` and the filter bounds are integer instants. Parsing, time zones, the end bound denoting midnight of its day, invalid dates (NaN comparisons) and `toLocaleDateString` formatting are not modelled. An absent bound and an emptied date input are both `None`, since the filter tests the bound for truthiness.
- The clock: each `new Date()` reading is a parameter. `UpdateStatus` takes two, one for the store and one for the selection, as the source reads the clock twice.
- Case mapping is ASCII only; Unicode `toLowerCase`/`toUpperCase` is not modelled.
- Dashboard.Percentage: `Math.round` over floating point is modelled as exact round-half-up on integers; floating-point error at the half-way points is not modelled.
- Dashboard.SortInPlace: the engine's own `sort` algorithm is replaced by an insertion sort. `StableSortsAgree` shows that every stable newest-first sort yields the same order, so the result does not depend on the algorithm.
- Dashboard.CountByCategory: the accumulator is keyed by the category value instead of its string; the two are in one-to-one correspondence (`Types.KeysRoundTrip`), and the order of keys is kept explicitly as insertion order, which is the order `Object.entries` uses for such keys.
- Dashboard.StatusCounts: each tile count is defined by the matching `Tally` function; the contract states the bounds, and `ClosedTileCountsClosed` the partition, rather than restating the definition.
- IssueManagement.StatusCounts: each count is defined by the matching `Tally` function; the contract states the total and the partition rather than restating the definition.
- IssueManagement.IssueStore.Select: requires the issue to be in the filtered view, which is where the card being clicked comes from; the source has no such check of its own.
- Rendering and scheduling: JSX, `useMemo`, batching of `useState` updates (each handler is one atomic step), and UI toggles (`showFilters`, `viewMode`, `showStatusDropdown`, `showAssignModal`, the comment box).
- Colour tables (IssueCard.tsx:19-51, IssueDetailModal.tsx:44-76, Dashboard.tsx:60-81) are finite maps holding only the keys written in the object literals. A JavaScript lookup also finds keys inherited from `Object.prototype` (`colors['toString']`, `colors['constructor']`), whose values are truthy, so `||` would not fall back for them; the model gives those strings the fallback colour.
- IssueManagement.IssueStore.constructor: takes the initial list by value. In the source `useState(mockIssues)` (IssueManagement.tsx:10) holds the same array the dashboard sorts in place (Dashboard.tsx:43), so once the overview page has been shown the issue list opens in newest-first order; that aliasing between the two screens is not modelled. The effect of the sort on later renders of the dashboard itself is modelled by `Dashboard.Render`.
- Colours are opaque tokens; the CSS class strings are not modelled. The priority badge text (`priority.toUpperCase()`) and the name initials in the sidebar are not modelled.
- The filter sidebar's own option lists (captions and colours for each checkbox) are presentation only.

## Findings

| source | as written | input that shows it | evidently intended | confidence | as-written member | corrected member |
|---|---|---|---|---|---|---|
| src/components/Dashboard/Dashboard.tsx:60-71 | the colour table is keyed "Potholes" and "Street Lights", but the breakdown labels it colours are generated as "Pothole" and "Streetlight", so those two entries fall back to the grey of "Other" | any issue list with a `pothole` or `streetlight` issue: its breakdown entry is grey where its card is orange or yellow | keys equal to the generated labels, so every entry gets its category's colour, as on the card | high (not executed) | Dashboard.MisKeyedLabelsDifferFromCard | Dashboard.IntendedColorsMatchCard |
