/** The issue card of the issue list: colour tables with fallbacks, the
    category label, the status and priority badge texts, and the rules for
    which optional lines the card shows. */
module IssueCard {
  import opened Types
  import opened Text
  import opened Palette

  const CategoryColors: map<string, Style> := map[
    "pothole" := Style(Orange, false),
    "streetlight" := Style(Yellow, false),
    "trash" := Style(Green, false),
    "graffiti" := Style(Purple, false),
    "water_leak" := Style(Blue, false),
    "traffic_sign" := Style(Red, false),
    "other" := Style(Gray, false)]

  const PriorityColors: map<string, Style> := map[
    "urgent" := Style(Red, true),
    "high" := Style(Orange, true),
    "medium" := Style(Yellow, true),
    "low" := Style(Green, true)]

  const StatusColors: map<string, Style> := map[
    "new" := Style(Blue, false),
    "assigned" := Style(Purple, false),
    "in_progress" := Style(Yellow, false),
    "resolved" := Style(Green, false),
    "closed" := Style(Gray, false)]

  function CategoryColor(category: string): Style
  {
    Lookup(CategoryColors, category, "other")
  }

  function PriorityColor(priority: string): Style
  {
    Lookup(PriorityColors, priority, "medium")
  }

  function StatusColor(status: string): Style
  {
    Lookup(StatusColors, status, "new")
  }

  /** The colour tables are keyed by exactly the enumeration strings, so
      every enumeration value finds its own entry, and only other strings
      fall back to the `other`, `medium` and `new` entries. */
  lemma CategoryColorsCoverCategories()
    ensures CategoryColors.Keys == set c: Category | true :: CategoryKey(c)
  {
    var cs := set c: Category | true :: CategoryKey(c);
    assert CategoryKey(Pothole) in cs && CategoryKey(Streetlight) in cs && CategoryKey(Trash) in cs;
    assert CategoryKey(Graffiti) in cs && CategoryKey(WaterLeak) in cs && CategoryKey(TrafficSign) in cs;
    assert CategoryKey(OtherCategory) in cs;
  }

  lemma PriorityColorsCoverPriorities()
    ensures PriorityColors.Keys == set p: Priority | true :: PriorityKey(p)
  {
    var ps := set p: Priority | true :: PriorityKey(p);
    assert PriorityKey(Low) in ps && PriorityKey(Medium) in ps && PriorityKey(High) in ps && PriorityKey(Urgent) in ps;
  }

  lemma StatusColorsCoverStatuses()
    ensures StatusColors.Keys == set s: Status | true :: StatusKey(s)
  {
    var ss := set s: Status | true :: StatusKey(s);
    assert StatusKey(New) in ss && StatusKey(Assigned) in ss && StatusKey(InProgress) in ss;
    assert StatusKey(Resolved) in ss && StatusKey(Closed) in ss;
  }

  /** Distinct categories get their own colour except where the table
      gives two keys one hue; unknown strings share the `other` colour. */
  lemma ColorFallbacks(key: string)
    ensures ParseCategory(key).None? ==> CategoryColor(key) == Style(Gray, false)
    ensures ParsePriority(key).None? ==> PriorityColor(key) == Style(Yellow, true)
    ensures ParseStatus(key).None? ==> StatusColor(key) == Style(Blue, false)
    ensures ParseCategory(key).Some? ==> CategoryColor(key) == CategoryColors[key]
    ensures ParsePriority(key).Some? ==> PriorityColor(key) == PriorityColors[key]
    ensures ParseStatus(key).Some? ==> StatusColor(key) == StatusColors[key]
  {
  }

  /** `word.charAt(0).toUpperCase() + word.slice(1)`. */
  function Capitalize(w: string): (r: string)
    ensures |r| == |w|
    ensures forall i :: 0 < i < |w| ==> r[i] == w[i]
    ensures |w| > 0 ==> r[0] == UpperChar(w[0])
  {
    if w == [] then [] else [UpperChar(w[0])] + w[1..]
  }

  function CapitalizeAll(words: seq<string>): (r: seq<string>)
    ensures |r| == |words|
    ensures forall k :: 0 <= k < |words| ==> r[k] == Capitalize(words[k])
  {
    if words == [] then [] else [Capitalize(words[0])] + CapitalizeAll(words[1..])
  }

  /** `category.split('_').map(capitalize).join(' ')`. */
  function FormatCategoryLabel(category: string): string
  {
    Join(CapitalizeAll(Split(category, '_')), " ")
  }

  /** What the label has at position i: a space for each `_`, an
      upper-cased character at the start of each piece, the character
      itself elsewhere. */
  function TitleCaseAt(s: string, i: nat): char
    requires i < |s|
  {
    if s[i] == '_' then ' '
    else if i == 0 || s[i - 1] == '_' then UpperChar(s[i])
    else s[i]
  }

  /** A piece without `_` is title-cased by capitalising it. */
  lemma CapitalizeIsTitleCase(p: string)
    requires '_' !in p
    ensures forall i :: 0 <= i < |p| ==> Capitalize(p)[i] == TitleCaseAt(p, i)
  {
    forall i | 0 <= i < |p|
      ensures Capitalize(p)[i] == TitleCaseAt(p, i)
    {
      assert i > 0 ==> p[i - 1] in p;
    }
  }

  /** Title-casing `p + "_" + s` is capitalising `p`, a space, and the
      title-casing of `s`. */
  lemma TitleCaseConcat(p: string, s: string, l: string)
    requires '_' !in p
    requires |l| == |s|
    requires forall j :: 0 <= j < |s| ==> l[j] == TitleCaseAt(s, j)
    ensures forall i :: 0 <= i < |p + "_" + s| ==>
      (Capitalize(p) + " " + l)[i] == TitleCaseAt(p + "_" + s, i)
  {
    CapitalizeIsTitleCase(p);
    var whole := p + "_" + s;
    var shown := Capitalize(p) + " " + l;
    forall i | 0 <= i < |whole|
      ensures shown[i] == TitleCaseAt(whole, i)
    {
      if i < |p| {
        assert whole[i] == p[i] && shown[i] == Capitalize(p)[i];
        assert i > 0 ==> whole[i - 1] == p[i - 1];
      } else if i > |p| {
        var j := i - |p| - 1;
        assert whole[i] == s[j] && shown[i] == l[j];
        assert j > 0 ==> whole[i - 1] == s[j - 1];
      }
    }
  }

  /** Capitalising the pieces and joining them with spaces is the
      title-casing of the pieces joined with `_`. */
  lemma {:induction false} JoinedTitleCase(parts: seq<string>)
    requires |parts| >= 1
    requires forall k :: 0 <= k < |parts| ==> '_' !in parts[k]
    ensures |Join(CapitalizeAll(parts), " ")| == |Join(parts, "_")|
    ensures forall i :: 0 <= i < |Join(parts, "_")| ==>
      Join(CapitalizeAll(parts), " ")[i] == TitleCaseAt(Join(parts, "_"), i)
    decreases |parts|
  {
    var p := parts[0];
    var caps := CapitalizeAll(parts);
    if |parts| == 1 {
      assert caps == [Capitalize(p)];
      CapitalizeIsTitleCase(p);
    } else {
      var rest := parts[1..];
      JoinedTitleCase(rest);
      assert caps[1..] == CapitalizeAll(rest);
      assert Join(parts, "_") == p + "_" + Join(rest, "_");
      assert Join(caps, " ") == Capitalize(p) + " " + Join(CapitalizeAll(rest), " ");
      TitleCaseConcat(p, Join(rest, "_"), Join(CapitalizeAll(rest), " "));
    }
  }

  /** The label is the key with every `_` turned into a space and the
      first character of every piece upper-cased. */
  lemma FormatCategoryLabelIsTitleCase(s: string)
    ensures |FormatCategoryLabel(s)| == |s|
    ensures forall i :: 0 <= i < |s| ==> FormatCategoryLabel(s)[i] == TitleCaseAt(s, i)
  {
    JoinedTitleCase(Split(s, '_'));
  }

  /** The label has the key's length and no `_` left in it. */
  lemma FormatCategoryLabelNoUnderscore(s: string)
    ensures |FormatCategoryLabel(s)| == |s|
    ensures '_' !in FormatCategoryLabel(s)
  {
    FormatCategoryLabelIsTitleCase(s);
  }

  /** A label is proved from its character-by-character description. */
  lemma LabelFromTitleCase(s: string, t: string)
    requires |s| == |t|
    requires forall i :: 0 <= i < |s| ==> TitleCaseAt(s, i) == t[i]
    ensures FormatCategoryLabel(s) == t
  {
    FormatCategoryLabelIsTitleCase(s);
  }

  /** The labels of the seven categories, e.g. `water_leak` gives
      "Water Leak". */
  lemma CategoryLabels(c: Category)
    ensures FormatCategoryLabel(CategoryKey(c)) ==
      match c
      case Pothole => "Pothole"
      case Streetlight => "Streetlight"
      case Trash => "Trash"
      case Graffiti => "Graffiti"
      case WaterLeak => "Water Leak"
      case TrafficSign => "Traffic Sign"
      case OtherCategory => "Other"
  {
    match c
    case Pothole => LabelFromTitleCase(CategoryKey(c), "Pothole");
    case Streetlight => LabelFromTitleCase(CategoryKey(c), "Streetlight");
    case Trash => LabelFromTitleCase(CategoryKey(c), "Trash");
    case Graffiti => LabelFromTitleCase(CategoryKey(c), "Graffiti");
    case WaterLeak => LabelFromTitleCase(CategoryKey(c), "Water Leak");
    case TrafficSign => LabelFromTitleCase(CategoryKey(c), "Traffic Sign");
    case OtherCategory => LabelFromTitleCase(CategoryKey(c), "Other");
  }

  /** `status.replace('_', ' ').toUpperCase()`. */
  function StatusBadge(status: string): (r: string)
    ensures |r| == |status|
    ensures '_' !in status ==> forall i :: 0 <= i < |status| ==> r[i] == UpperChar(status[i])
    ensures '_' in status ==> r[IndexOf(status, '_')] == ' '
    ensures '_' in status ==>
      forall i :: 0 <= i < |status| && i != IndexOf(status, '_') ==> r[i] == UpperChar(status[i])
  {
    Upper(ReplaceFirst(status, '_', ' '))
  }

  /** Only the first `_` becomes a space: a key with a second `_` keeps it. */
  lemma StatusBadgeKeepsLaterUnderscores(s: string, j: nat)
    requires j < |s| && s[j] == '_' && j != IndexOf(s, '_')
    ensures StatusBadge(s)[j] == '_'
  {
  }

  /** A badge is proved from its character-by-character description:
      without an `_` every character is upper-cased, with one the first
      `_`, at position k, becomes a space. */
  lemma BadgeFromChars(s: string, t: string, k: nat)
    requires |s| == |t|
    requires '_' !in s || (k < |s| && s[k] == '_' && '_' !in s[..k] && t[k] == ' ')
    requires forall i :: 0 <= i < |s| && ('_' !in s || i != k) ==> UpperChar(s[i]) == t[i]
    ensures StatusBadge(s) == t
  {
    if '_' in s {
      assert IndexOf(s, '_') == k;
    }
  }

  /** Every status key has at most one `_`, so its badge has none;
      `in_progress` reads "IN PROGRESS". */
  lemma StatusBadges(s: Status)
    ensures StatusBadge(StatusKey(s)) ==
      match s
      case New => "NEW"
      case Assigned => "ASSIGNED"
      case InProgress => "IN PROGRESS"
      case Resolved => "RESOLVED"
      case Closed => "CLOSED"
  {
    match s
    case New => BadgeFromChars(StatusKey(s), "NEW", 0);
    case Assigned => BadgeFromChars(StatusKey(s), "ASSIGNED", 0);
    case InProgress =>
      assert StatusKey(s)[..2] == "in";
      BadgeFromChars(StatusKey(s), "IN PROGRESS", 2);
    case Resolved => BadgeFromChars(StatusKey(s), "RESOLVED", 0);
    case Closed => BadgeFromChars(StatusKey(s), "CLOSED", 0);
  }

  lemma StatusBadgesHaveNoUnderscore(s: Status)
    ensures '_' !in StatusBadge(StatusKey(s))
  {
    StatusBadges(s);
    NoUnderscoreIn(StatusBadge(StatusKey(s)));
  }

  lemma NoUnderscoreIn(t: string)
    requires t == "NEW" || t == "ASSIGNED" || t == "IN PROGRESS" || t == "RESOLVED" || t == "CLOSED"
    ensures '_' !in t
  {
  }

  /** The "Assigned to" line is shown exactly when there is an assignee. */
  predicate ShowsAssignee(issue: Issue)
  {
    issue.assignedTo.Some?
  }

  /** "Est. completion" is shown when an estimate exists and the issue is
      not resolved; a closed issue still shows it. */
  predicate ShowsEstimatedCompletion(issue: Issue)
  {
    issue.estimatedResolution.Some? && issue.status != Resolved
  }
}
