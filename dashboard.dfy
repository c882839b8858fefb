/** The dashboard overview: the metric tiles and the status distribution,
    the per-category breakdown with rounded percentages, the five most
    recently created issues (after sorting the shared issue array in
    place), and the dashboard's own colour tables, keyed by display label. */
module Dashboard {
  import opened Types
  import opened Text
  import opened Tally
  import opened Palette
  import IssueCard

  // ---------------------------------------------------------------------
  // Tiles

  datatype TileCounts = TileCounts(
    total: nat, newCount: nat, assignedCount: nat, inProgressCount: nat, resolvedCount: nat, urgentCount: nat)

  /** `getStatusCounts`: the list length, four status counts and the
      number of urgent issues. */
  function StatusCounts(issues: seq<Issue>): (c: TileCounts)
    ensures c.total == |issues|
    ensures c.newCount + c.assignedCount + c.inProgressCount + c.resolvedCount <= c.total
    ensures c.urgentCount <= c.total
  {
    StatusCountsPartition(issues);
    TileCounts(|issues|, CountStatus(issues, New), CountStatus(issues, Assigned),
      CountStatus(issues, InProgress), CountStatus(issues, Resolved), CountPriority(issues, Urgent))
  }

  /** The "Closed" tile is derived by subtraction rather than counted. */
  function ClosedTile(c: TileCounts): int
  {
    c.total - c.newCount - c.assignedCount - c.inProgressCount - c.resolvedCount
  }

  /** Because a status has exactly five values, the subtraction is the
      number of closed issues, and five tiles add up to the total. */
  lemma ClosedTileCountsClosed(issues: seq<Issue>)
    ensures ClosedTile(StatusCounts(issues)) == CountStatus(issues, Closed)
  {
    StatusCountsPartition(issues);
  }

  // ---------------------------------------------------------------------
  // Category breakdown

  /** The categories present, in the order in which each first occurs:
      the key order of the accumulator object built by `reduce`. */
  function FirstAppearance(issues: seq<Issue>): (cats: seq<Category>)
    ensures forall j, k :: 0 <= j < k < |cats| ==> cats[j] != cats[k]
  {
    if issues == [] then []
    else
      var last := issues[|issues| - 1].category;
      var cats := FirstAppearance(issues[..|issues| - 1]);
      if last in cats then cats else cats + [last]
  }

  /** Exactly the categories that occur are listed. */
  lemma {:induction false} FirstAppearanceMembers(issues: seq<Issue>)
    ensures forall c :: c in FirstAppearance(issues) <==> exists i :: 0 <= i < |issues| && issues[i].category == c
  {
    if issues != [] {
      var prefix := issues[..|issues| - 1];
      FirstAppearanceMembers(prefix);
      assert forall i :: 0 <= i < |prefix| ==> prefix[i] == issues[i];
    }
  }

  /** A category seen earlier is listed earlier: the categories of any
      prefix of the list head the categories of the whole list. */
  lemma {:induction false} FirstAppearanceExtendsPrefix(issues: seq<Issue>, i: nat)
    requires i <= |issues|
    ensures FirstAppearance(issues[..i]) <= FirstAppearance(issues)
    decreases |issues| - i
  {
    if i < |issues| {
      FirstAppearanceExtendsPrefix(issues, i + 1);
      assert issues[..i + 1][..i] == issues[..i];
    } else {
      assert issues[..i] == issues;
    }
  }

  /** `Math.round(count / total * 100)` on exact rationals: the nearest
      whole percentage, halves rounded up. */
  function Percentage(count: nat, total: nat): (p: nat)
    requires total > 0
    ensures (2 * total) * p <= 200 * count + total < (2 * total) * p + 2 * total
  {
    (200 * count + total) / (2 * total)
  }

  lemma MulCancel(d: int, a: int, b: int)
    requires d > 0 && d * a < d * b
    ensures a < b
  {
  }

  /** A share of the total lies in 0..100, all of it is 100 and none of it
      is 0. */
  lemma PercentageRange(count: nat, total: nat)
    requires total > 0
    ensures count <= total ==> Percentage(count, total) <= 100
    ensures count == total ==> Percentage(count, total) == 100
    ensures count == 0 ==> Percentage(count, total) == 0
  {
    var p := Percentage(count, total);
    var d := 2 * total;
    if count <= total {
      assert d * p < d * 101;
      MulCancel(d, p, 101);
    }
    if count == total {
      assert d * 99 < d * p + d;
      MulCancel(d, 99, p + 1);
    }
    if count == 0 {
      assert d * p < d * 1;
      MulCancel(d, p, 1);
    }
  }

  datatype CategoryEntry = CategoryEntry(category: string, count: nat, percentage: nat)

  /** The entry of one category. */
  function EntryOf(issues: seq<Issue>, c: Category): (e: CategoryEntry)
    requires issues != []
  {
    var n := CountCategory(issues, c);
    CategoryEntry(IssueCard.FormatCategoryLabel(CategoryKey(c)), n, Percentage(n, |issues|))
  }

  /** What `getCategoryBreakdown` returns: one entry per category present,
      in first-appearance order; an empty list gives no entries. */
  function Breakdown(issues: seq<Issue>): (r: seq<CategoryEntry>)
    ensures issues == [] ==> r == []
    ensures |r| == |FirstAppearance(issues)|
  {
    if issues == [] then []
    else
      var cats := FirstAppearance(issues);
      seq(|cats|, k requires 0 <= k < |cats| => EntryOf(issues, cats[k]))
  }

  function Sum(xs: seq<nat>): nat
  {
    if xs == [] then 0 else Sum(xs[..|xs| - 1]) + xs[|xs| - 1]
  }

  function Counts(entries: seq<CategoryEntry>): (r: seq<nat>)
    ensures |r| == |entries|
    ensures forall k :: 0 <= k < |entries| ==> r[k] == entries[k].count
  {
    seq(|entries|, k requires 0 <= k < |entries| => entries[k].count)
  }

  function CategoryCounts(cats: seq<Category>, issues: seq<Issue>): (r: seq<nat>)
    ensures |r| == |cats|
    ensures forall k :: 0 <= k < |cats| ==> r[k] == CountCategory(issues, cats[k])
  {
    seq(|cats|, k requires 0 <= k < |cats| => CountCategory(issues, cats[k]))
  }

  /** Appending an issue adds one to the summed counts of a duplicate-free
      category list exactly when it names the issue's category. */
  lemma {:induction false} CategoryCountsSnoc(cats: seq<Category>, prefix: seq<Issue>, x: Issue)
    requires forall j, k :: 0 <= j < k < |cats| ==> cats[j] != cats[k]
    ensures Sum(CategoryCounts(cats, prefix + [x])) ==
      Sum(CategoryCounts(cats, prefix)) + (if x.category in cats then 1 else 0)
  {
    var issues := prefix + [x];
    assert issues[..|issues| - 1] == prefix;
    if cats != [] {
      var init := cats[..|cats| - 1];
      CategoryCountsSnoc(init, prefix, x);
      assert CategoryCounts(cats, issues)[..|cats| - 1] == CategoryCounts(init, issues);
      assert CategoryCounts(cats, prefix)[..|cats| - 1] == CategoryCounts(init, prefix);
      assert cats == init + [cats[|cats| - 1]];
    }
  }

  lemma CategoryCountsAppend(cats: seq<Category>, issues: seq<Issue>, c: Category)
    ensures Sum(CategoryCounts(cats + [c], issues)) == Sum(CategoryCounts(cats, issues)) + CountCategory(issues, c)
  {
    var all := CategoryCounts(cats + [c], issues);
    assert all[..|all| - 1] == CategoryCounts(cats, issues);
  }

  /** The per-category counts of the categories present add up to the
      length of the list. */
  lemma {:induction false} CategoryCountsCoverAll(issues: seq<Issue>)
    ensures Sum(CategoryCounts(FirstAppearance(issues), issues)) == |issues|
  {
    if issues != [] {
      var prefix := issues[..|issues| - 1];
      var x := issues[|issues| - 1];
      var cats := FirstAppearance(prefix);
      CategoryCountsCoverAll(prefix);
      assert issues == prefix + [x];
      CategoryCountsSnoc(cats, prefix, x);
      if x.category in cats {
        assert FirstAppearance(issues) == cats;
      } else {
        assert FirstAppearance(issues) == cats + [x.category];
        CategoryCountsAppend(cats, issues, x.category);
        AbsentCategoryNotCounted(prefix, x.category);
      }
    }
  }

  /** The breakdown's counts sum to the number of issues. */
  lemma BreakdownSumsToTotal(issues: seq<Issue>)
    ensures Sum(Counts(Breakdown(issues))) == |issues|
  {
    CategoryCountsCoverAll(issues);
    if issues != [] {
      assert Counts(Breakdown(issues)) == CategoryCounts(FirstAppearance(issues), issues);
    }
  }

  /** Each entry is labelled with its category, counts the issues of that
      category (at least one), and shows a percentage within 0..100. */
  lemma BreakdownEntries(issues: seq<Issue>)
    ensures forall k :: 0 <= k < |Breakdown(issues)| ==>
      var c := FirstAppearance(issues)[k];
      && Breakdown(issues)[k].category == IssueCard.FormatCategoryLabel(CategoryKey(c))
      && Breakdown(issues)[k].count == CountCategory(issues, c) > 0
      && Breakdown(issues)[k].percentage <= 100
  {
    if issues != [] {
      var cats := FirstAppearance(issues);
      FirstAppearanceMembers(issues);
      forall k | 0 <= k < |cats|
        ensures CountCategory(issues, cats[k]) > 0
        ensures Percentage(CountCategory(issues, cats[k]), |issues|) <= 100
      {
        assert cats[k] in cats;
        CountCategoryPositive(issues, cats[k]);
        PercentageRange(CountCategory(issues, cats[k]), |issues|);
      }
    }
  }

  /** The entries carry pairwise different labels, so they can serve as
      list keys. */
  lemma BreakdownLabelsDistinct(issues: seq<Issue>)
    ensures forall j, k :: 0 <= j < k < |Breakdown(issues)| ==> Breakdown(issues)[j].category != Breakdown(issues)[k].category
  {
    forall c, d | c != d
      ensures IssueCard.FormatCategoryLabel(CategoryKey(c)) != IssueCard.FormatCategoryLabel(CategoryKey(d))
    {
      IssueCard.CategoryLabels(c);
      IssueCard.CategoryLabels(d);
    }
  }

  /** A category not listed has count zero. */
  lemma AbsentCategoryNotCounted(issues: seq<Issue>, c: Category)
    requires c !in FirstAppearance(issues)
    ensures CountCategory(issues, c) == 0
  {
    FirstAppearanceMembers(issues);
    CountCategoryPositive(issues, c);
  }

  /** `counts` and `keys` are the dictionary and its key order after
      scanning `issues`. */
  predicate Tallied(issues: seq<Issue>, counts: map<Category, nat>, keys: seq<Category>)
  {
    && keys == FirstAppearance(issues)
    && (forall c :: c in counts <==> c in keys)
    && (forall c :: c in counts ==> counts[c] == CountCategory(issues, c))
  }

  /** One step of the `reduce`: `acc[c] = (acc[c] || 0) + 1`, a new key
      joining the end of the key order. */
  lemma TallyStep(prefix: seq<Issue>, x: Issue, counts: map<Category, nat>, keys: seq<Category>)
    requires Tallied(prefix, counts, keys)
    ensures var c := x.category;
      Tallied(prefix + [x], counts[c := (if c in counts then counts[c] else 0) + 1],
        if c in counts then keys else keys + [c])
  {
    var issues := prefix + [x];
    assert issues[..|issues| - 1] == prefix;
    if x.category !in counts {
      AbsentCategoryNotCounted(prefix, x.category);
    }
  }

  /** The `reduce` of `getCategoryBreakdown`: a dictionary from category
      to count, filled in one pass; `keys` is its insertion order, which
      is the order `Object.entries` lists non-numeric keys in. */
  method CountByCategory(issues: seq<Issue>) returns (counts: map<Category, nat>, keys: seq<Category>)
    ensures keys == FirstAppearance(issues)
    ensures forall c :: c in counts <==> c in keys
    ensures forall c :: c in counts ==> counts[c] == CountCategory(issues, c)
  {
    counts := map[];
    keys := [];
    var i := 0;
    while i < |issues|
      invariant 0 <= i <= |issues|
      invariant Tallied(issues[..i], counts, keys)
    {
      var c := issues[i].category;
      TallyStep(issues[..i], issues[i], counts, keys);
      assert issues[..i + 1] == issues[..i] + [issues[i]];
      if c !in counts {
        keys := keys + [c];
      }
      counts := counts[c := (if c in counts then counts[c] else 0) + 1];
      i := i + 1;
    }
    assert issues[..i] == issues;
  }

  /** `getCategoryBreakdown`: the `map` over the dictionary's entries
      turns each into a labelled entry with its percentage. */
  method CategoryBreakdown(issues: seq<Issue>) returns (entries: seq<CategoryEntry>)
    ensures entries == Breakdown(issues)
  {
    var counts, keys := CountByCategory(issues);
    entries := seq(|keys|, k requires 0 <= k < |keys| =>
      CategoryEntry(IssueCard.FormatCategoryLabel(CategoryKey(keys[k])), counts[keys[k]], Percentage(counts[keys[k]], |issues|)));
  }

  // ---------------------------------------------------------------------
  // Dashboard colour tables

  /** Keyed by display label, unlike the card's tables. */
  const CategoryColors: map<string, Style> := map[
    "Potholes" := Style(Orange, false),
    "Street Lights" := Style(Yellow, false),
    "Trash" := Style(Green, false),
    "Graffiti" := Style(Purple, false),
    "Water Leak" := Style(Blue, false),
    "Traffic Sign" := Style(Red, false),
    "Other" := Style(Gray, false)]

  /** The badges here carry no border. */
  const PriorityColors: map<string, Style> := map[
    "urgent" := Style(Red, false),
    "high" := Style(Orange, false),
    "medium" := Style(Yellow, false),
    "low" := Style(Green, false)]

  function CategoryColor(name: string): (s: Style)
    ensures name !in CategoryColors ==> s == Style(Gray, false)
  {
    Lookup(CategoryColors, name, "Other")
  }

  function PriorityColor(priority: string): (s: Style)
    ensures priority !in PriorityColors ==> s == Style(Yellow, false)
  {
    Lookup(PriorityColors, priority, "medium")
  }

  /** The colour each breakdown entry actually gets: the generated labels
      "Pothole" and "Streetlight" are not keys of the table, so those two
      categories fall back to the grey of "Other". */
  lemma BreakdownColors(c: Category)
    ensures CategoryColor(IssueCard.FormatCategoryLabel(CategoryKey(c))) == match c
      case Pothole => Style(Gray, false)
      case Streetlight => Style(Gray, false)
      case Trash => Style(Green, false)
      case Graffiti => Style(Purple, false)
      case WaterLeak => Style(Blue, false)
      case TrafficSign => Style(Red, false)
      case OtherCategory => Style(Gray, false)
  {
    IssueCard.CategoryLabels(c);
    LabelColors(c, IssueCard.FormatCategoryLabel(CategoryKey(c)));
  }

  /** The colour of each generated label; the singular "Pothole" and the
      one-word "Streetlight" are not keys of the label table. */
  lemma LabelColors(c: Category, name: string)
    requires name == match c
      case Pothole => "Pothole"
      case Streetlight => "Streetlight"
      case Trash => "Trash"
      case Graffiti => "Graffiti"
      case WaterLeak => "Water Leak"
      case TrafficSign => "Traffic Sign"
      case OtherCategory => "Other"
    ensures c == Pothole || c == Streetlight ==> name !in CategoryColors
    ensures CategoryColor(name) == match c
      case Pothole => Style(Gray, false)
      case Streetlight => Style(Gray, false)
      case Trash => Style(Green, false)
      case Graffiti => Style(Purple, false)
      case WaterLeak => Style(Blue, false)
      case TrafficSign => Style(Red, false)
      case OtherCategory => Style(Gray, false)
  {
  }

  /** The same hues keyed by the labels the breakdown generates: the
      evidently intended table, under which no category falls back. */
  const LabelKeyedColors: map<string, Style> := map[
    "Pothole" := Style(Orange, false),
    "Streetlight" := Style(Yellow, false),
    "Trash" := Style(Green, false),
    "Graffiti" := Style(Purple, false),
    "Water Leak" := Style(Blue, false),
    "Traffic Sign" := Style(Red, false),
    "Other" := Style(Gray, false)]

  function IntendedCategoryColor(name: string): (s: Style)
    ensures name in LabelKeyedColors ==> s == LabelKeyedColors[name]
    ensures name !in LabelKeyedColors ==> s == Style(Gray, false)
  {
    Lookup(LabelKeyedColors, name, "Other")
  }

  /** Under the label-keyed table every breakdown entry gets the colour the
      issue card gives its category. */
  lemma IntendedColorsMatchCard(c: Category)
    ensures IntendedCategoryColor(IssueCard.FormatCategoryLabel(CategoryKey(c))) == IssueCard.CategoryColor(CategoryKey(c))
  {
    IssueCard.CategoryLabels(c);
    HueByLabel(c, IssueCard.FormatCategoryLabel(CategoryKey(c)));
  }

  /** Each generated label finds the card's colour of its category. */
  lemma HueByLabel(c: Category, name: string)
    requires name == match c
      case Pothole => "Pothole"
      case Streetlight => "Streetlight"
      case Trash => "Trash"
      case Graffiti => "Graffiti"
      case WaterLeak => "Water Leak"
      case TrafficSign => "Traffic Sign"
      case OtherCategory => "Other"
    ensures IntendedCategoryColor(name) == IssueCard.CategoryColor(CategoryKey(c))
  {
    match c
    case Pothole => SameHue(name, "pothole");
    case Streetlight => SameHue(name, "streetlight");
    case Trash => SameHue(name, "trash");
    case Graffiti => SameHue(name, "graffiti");
    case WaterLeak => SameHue(name, "water_leak");
    case TrafficSign => SameHue(name, "traffic_sign");
    case OtherCategory => SameHue(name, "other");
  }

  /** A label and a card key with the same table entry get the same colour. */
  lemma SameHue(name: string, key: string)
    requires name in LabelKeyedColors && key in IssueCard.CategoryColors
    requires LabelKeyedColors[name] == IssueCard.CategoryColors[key]
    ensures IntendedCategoryColor(name) == IssueCard.CategoryColor(key)
  {
  }

  /** As written, the pothole and streetlight entries are grey where their
      cards are orange and yellow. */
  lemma MisKeyedLabelsDifferFromCard(c: Category)
    requires c == Pothole || c == Streetlight
    ensures CategoryColor(IssueCard.FormatCategoryLabel(CategoryKey(c))) == Style(Gray, false)
    ensures CategoryColor(IssueCard.FormatCategoryLabel(CategoryKey(c))) != IssueCard.CategoryColor(CategoryKey(c))
  {
    var name := IssueCard.FormatCategoryLabel(CategoryKey(c));
    IssueCard.CategoryLabels(c);
    BreakdownColors(c);
    IntendedColorsMatchCard(c);
    IntendedNotGray(name);
  }

  lemma IntendedNotGray(name: string)
    requires name == "Pothole" || name == "Streetlight"
    ensures IntendedCategoryColor(name) != Style(Gray, false)
  {
  }

  /** Every priority of the data model has its own entry. */
  lemma PriorityColorsCoverPriorities(p: Priority)
    ensures PriorityKey(p) in PriorityColors
    ensures PriorityColor(PriorityKey(p)) == IssueCard.PriorityColor(PriorityKey(p)).(bordered := false)
  {
    match p
    case Low =>
    case Medium =>
    case High =>
    case Urgent =>
  }

  // ---------------------------------------------------------------------
  // Recent issues

  /** Newest first. */
  predicate SortedByRecency(s: seq<Issue>)
  {
    forall i, j :: 0 <= i < j < |s| ==> s[i].createdAt >= s[j].createdAt
  }

  /** Puts `x` after every issue at least as recent, so that equal
      instants keep their order of arrival. */
  function Insert(s: seq<Issue>, x: Issue): (r: seq<Issue>)
    ensures |r| == |s| + 1
  {
    if s == [] then [x]
    else if s[|s| - 1].createdAt >= x.createdAt then s + [x]
    else Insert(s[..|s| - 1], x) + [s[|s| - 1]]
  }

  /** The array order after `sort((a, b) => b.createdAt - a.createdAt)`,
      written as the stable insertion of each element in turn. */
  function SortByRecency(s: seq<Issue>): (r: seq<Issue>)
    ensures |r| == |s|
  {
    if s == [] then [] else Insert(SortByRecency(s[..|s| - 1]), s[|s| - 1])
  }

  /** Insertion adds `x` and loses nothing. */
  lemma {:induction false} InsertPermutes(s: seq<Issue>, x: Issue)
    ensures multiset(Insert(s, x)) == multiset(s) + multiset{x}
  {
    if s != [] && s[|s| - 1].createdAt < x.createdAt {
      var init := s[..|s| - 1];
      InsertPermutes(init, x);
      assert s == init + [s[|s| - 1]];
    }
  }

  /** The sorted list is a rearrangement of the input. */
  lemma {:induction false} SortPermutes(s: seq<Issue>)
    ensures multiset(SortByRecency(s)) == multiset(s)
  {
    if s != [] {
      var init := s[..|s| - 1];
      SortPermutes(init);
      InsertPermutes(SortByRecency(init), s[|s| - 1]);
      assert s == init + [s[|s| - 1]];
    }
  }

  lemma {:induction false} InsertKeepsSorted(s: seq<Issue>, x: Issue)
    requires SortedByRecency(s)
    ensures SortedByRecency(Insert(s, x))
    ensures forall i :: 0 <= i < |Insert(s, x)| ==> Insert(s, x)[i] == x || Insert(s, x)[i] in s
  {
    if s != [] && s[|s| - 1].createdAt < x.createdAt {
      var init := s[..|s| - 1];
      InsertKeepsSorted(init, x);
      var r := Insert(init, x);
      forall i | 0 <= i < |r|
        ensures r[i].createdAt >= s[|s| - 1].createdAt
      {
        if r[i] != x {
          var j :| 0 <= j < |init| && init[j] == r[i];
        }
      }
    }
  }

  /** The sorted list is newest first. */
  lemma {:induction false} SortIsSorted(s: seq<Issue>)
    ensures SortedByRecency(SortByRecency(s))
  {
    if s != [] {
      SortIsSorted(s[..|s| - 1]);
      InsertKeepsSorted(SortByRecency(s[..|s| - 1]), s[|s| - 1]);
    }
  }

  /** The issues created at instant `t`, in their order. */
  function At(s: seq<Issue>, t: Instant): seq<Issue>
  {
    if s == [] then []
    else At(s[..|s| - 1], t) + AtOne(s[|s| - 1], t)
  }

  function AtOne(x: Issue, t: Instant): seq<Issue>
  {
    if x.createdAt == t then [x] else []
  }

  /** Insertion appends `x` to the issues of its own instant and leaves
      those of every other instant alone. */
  lemma {:induction false} InsertIsStable(s: seq<Issue>, x: Issue, t: Instant)
    ensures At(Insert(s, x), t) == At(s, t) + AtOne(x, t)
  {
    if s == [] {
      assert [x][..0] == [];
    } else if s[|s| - 1].createdAt >= x.createdAt {
      assert (s + [x])[..|s|] == s;
    } else {
      var init := s[..|s| - 1];
      var last := s[|s| - 1];
      var r := Insert(init, x);
      InsertIsStable(init, x, t);
      assert (r + [last])[..|r|] == r;
      assert At(r + [last], t) == At(init, t) + AtOne(x, t) + AtOne(last, t);
      assert AtOne(x, t) == [] || AtOne(last, t) == [];
    }
  }

  /** The sort is stable: the issues of each instant keep their order. */
  lemma {:induction false} SortIsStable(s: seq<Issue>, t: Instant)
    ensures At(SortByRecency(s), t) == At(s, t)
  {
    if s != [] {
      var init := s[..|s| - 1];
      SortIsStable(init, t);
      InsertIsStable(SortByRecency(init), s[|s| - 1], t);
    }
  }

  lemma {:induction false} AtMember(s: seq<Issue>, t: Instant, x: Issue)
    requires x in At(s, t)
    ensures x in s && x.createdAt == t
  {
    if s != [] {
      var init := s[..|s| - 1];
      if x in At(init, t) {
        AtMember(init, t, x);
        assert init <= s;
      }
    }
  }

  /** In a list sorted newest first no issue is older than the last. */
  lemma OldestIsLast(r: seq<Issue>, x: Issue)
    requires SortedByRecency(r) && x in r
    ensures x.createdAt >= r[|r| - 1].createdAt
  {
    var i :| 0 <= i < |r| && r[i] == x;
    assert i < |r| - 1 ==> r[i].createdAt >= r[|r| - 1].createdAt;
  }

  /** Two lists sorted newest first with the same issues at the instant
      of each one's last element end at the same instant. */
  lemma SameOldest(r: seq<Issue>, q: seq<Issue>)
    requires r != [] && q != []
    requires SortedByRecency(r) && SortedByRecency(q)
    requires At(r, q[|q| - 1].createdAt) == At(q, q[|q| - 1].createdAt)
    requires At(r, r[|r| - 1].createdAt) == At(q, r[|r| - 1].createdAt)
    ensures r[|r| - 1].createdAt == q[|q| - 1].createdAt
  {
    var x, y := r[|r| - 1], q[|q| - 1];
    assert y in At(q, y.createdAt);
    AtMember(r, y.createdAt, y);
    OldestIsLast(r, y);
    assert x in At(r, x.createdAt);
    AtMember(q, x.createdAt, x);
    OldestIsLast(q, x);
  }

  /** Dropping the last element drops it from the issues of its instant
      and from no other instant's. */
  lemma DropLast(r: seq<Issue>, t: Instant)
    requires r != []
    ensures At(r[..|r| - 1], t) + AtOne(r[|r| - 1], t) == At(r, t)
  {
  }

  /** Lists ending at the same instant, with the same issues at that
      instant, end with the same issue and agree on the others there. */
  lemma SameLast(r: seq<Issue>, q: seq<Issue>, m: Instant)
    requires r != [] && q != []
    requires r[|r| - 1].createdAt == m == q[|q| - 1].createdAt
    requires At(r, m) == At(q, m)
    ensures r[|r| - 1] == q[|q| - 1]
    ensures At(r[..|r| - 1], m) == At(q[..|q| - 1], m)
  {
    DropLast(r, m);
    DropLast(q, m);
    var both := At(r, m);
    assert both == At(r[..|r| - 1], m) + [r[|r| - 1]];
    assert both == At(q[..|q| - 1], m) + [q[|q| - 1]];
    assert both[..|both| - 1] == At(r[..|r| - 1], m) && both[..|both| - 1] == At(q[..|q| - 1], m);
  }

  /** At an instant other than that of their last elements, two lists
      agree exactly when the lists without those elements do. */
  lemma OtherInstant(r: seq<Issue>, q: seq<Issue>, t: Instant)
    requires r != [] && q != []
    requires r[|r| - 1].createdAt != t && q[|q| - 1].createdAt != t
    requires At(r, t) == At(q, t)
    ensures At(r[..|r| - 1], t) == At(q[..|q| - 1], t)
  {
    DropLast(r, t);
    DropLast(q, t);
    assert At(r[..|r| - 1], t) + [] == At(r[..|r| - 1], t);
    assert At(q[..|q| - 1], t) + [] == At(q[..|q| - 1], t);
  }

  /** Two lists sorted newest first that agree, instant by instant, on
      the order of their issues are the same list. */
  lemma {:induction false} SortedAndStableIsUnique(r: seq<Issue>, q: seq<Issue>)
    requires |r| == |q|
    requires SortedByRecency(r) && SortedByRecency(q)
    requires forall t :: At(r, t) == At(q, t)
    ensures r == q
  {
    if r != [] {
      var x, y := r[|r| - 1], q[|q| - 1];
      var ri, qi := r[..|r| - 1], q[..|q| - 1];
      SameOldest(r, q);
      var m := x.createdAt;
      SameLast(r, q, m);
      forall t | t != m
        ensures At(ri, t) == At(qi, t)
      {
        OtherInstant(r, q, t);
      }
      SortedAndStableIsUnique(ri, qi);
      assert r == ri + [x] && q == qi + [y];
    }
  }

  /** Any stable sort newest first, whatever its algorithm, leaves the
      array in the order SortByRecency specifies. */
  lemma StableSortsAgree(s: seq<Issue>, q: seq<Issue>)
    requires |q| == |s| && SortedByRecency(q)
    requires forall t :: At(q, t) == At(s, t)
    ensures q == SortByRecency(s)
  {
    SortIsSorted(s);
    forall t
      ensures At(SortByRecency(s), t) == At(q, t)
    {
      SortIsStable(s, t);
    }
    SortedAndStableIsUnique(SortByRecency(s), q);
  }

  /** Shifting `x` to its place in an array prefix: the part of the
      insertion still to do, once the elements from `j` on are known to be
      older than `x`. */
  lemma {:induction false} InsertSplit(s: seq<Issue>, x: Issue, j: nat)
    requires j <= |s|
    requires forall k :: j <= k < |s| ==> s[k].createdAt < x.createdAt
    ensures Insert(s, x) == Insert(s[..j], x) + s[j..]
    decreases |s| - j
  {
    if j == |s| {
      assert s[..j] == s;
    } else {
      var init := s[..|s| - 1];
      assert init[..j] == s[..j];
      InsertSplit(init, x, j);
      assert s[j..] == init[j..] + [s[|s| - 1]];
    }
  }

  /** Sorting one more element of the input inserts it. */
  lemma SortStep(input: seq<Issue>, i: nat)
    requires i < |input|
    ensures SortByRecency(input[..i + 1]) == Insert(SortByRecency(input[..i]), input[i])
  {
    assert input[..i + 1][..i] == input[..i];
  }

  /** The array during one pass: `x`, taken from position |sorted|, is
      to go to position `j`; the elements of `sorted` before `j` are in
      place, those from `j` on have moved up by one and are older than
      `x`, and the elements after the pass's range are untouched. */
  ghost predicate Shifting(cur: seq<Issue>, sorted: seq<Issue>, rest: seq<Issue>, x: Issue, j: nat)
  {
    && j <= |sorted|
    && |cur| == |sorted| + 1 + |rest|
    && cur[..j] == sorted[..j]
    && cur[j + 1..] == sorted[j..] + rest
    && forall k :: j <= k < |sorted| ==> sorted[k].createdAt < x.createdAt
  }

  /** Moving the element before the gap up by one moves the gap down. */
  lemma ShiftStep(cur: seq<Issue>, sorted: seq<Issue>, rest: seq<Issue>, x: Issue, j: nat)
    requires Shifting(cur, sorted, rest, x, j)
    requires j > 0 && cur[j - 1].createdAt < x.createdAt
    ensures Shifting(cur[j := cur[j - 1]], sorted, rest, x, j - 1)
  {
    var next := cur[j := cur[j - 1]];
    assert next[..j - 1] == cur[..j - 1];
    assert cur[j - 1] == sorted[j - 1];
    assert next[j..] == [sorted[j - 1]] + cur[j + 1..];
  }

  /** Filling the gap lays the array out as the front of `sorted`, `x`,
      the rest of `sorted`, then the untouched elements. */
  lemma FillGap(cur: seq<Issue>, sorted: seq<Issue>, rest: seq<Issue>, x: Issue, j: nat)
    requires Shifting(cur, sorted, rest, x, j)
    ensures cur[j := x] == sorted[..j] + [x] + sorted[j..] + rest
  {
    var placed := cur[j := x];
    assert placed[..j] == cur[..j];
    assert placed[j + 1..] == cur[j + 1..];
    assert placed == placed[..j] + [x] + placed[j + 1..];
  }

  /** An issue no newer than the last one is inserted at the end. */
  lemma InsertAtEnd(s: seq<Issue>, x: Issue)
    requires s != [] ==> s[|s| - 1].createdAt >= x.createdAt
    ensures Insert(s, x) == s + [x]
  {
  }

  /** Where the shifting stops, putting `x` in the gap completes the
      insertion. */
  lemma PlaceStep(cur: seq<Issue>, sorted: seq<Issue>, rest: seq<Issue>, x: Issue, j: nat)
    requires Shifting(cur, sorted, rest, x, j)
    requires j > 0 ==> cur[j - 1].createdAt >= x.createdAt
    ensures cur[j := x][..|sorted| + 1] == Insert(sorted, x)
    ensures cur[j := x][|sorted| + 1..] == rest
  {
    var front := sorted[..j] + [x] + sorted[j..];
    FillGap(cur, sorted, rest, x, j);
    assert j > 0 ==> sorted[..j][j - 1] == cur[..j][j - 1];
    InsertAtEnd(sorted[..j], x);
    InsertSplit(sorted, x, j);
    assert (front + rest)[..|sorted| + 1] == front;
    assert (front + rest)[|sorted| + 1..] == rest;
  }

  /** One pass of the insertion sort: the element at `i` moves down past
      every strictly older issue of the already sorted front `a[..i]`. */
  method InsertLatest(a: array<Issue>, i: nat)
    requires i < a.Length
    modifies a
    ensures a[..i + 1] == Insert(old(a[..i]), old(a[i]))
    ensures a[i + 1..] == old(a[i + 1..])
  {
    var x := a[i];
    ghost var sorted := a[..i];
    ghost var rest := a[i + 1..];
    assert a[..] == sorted + [x] + rest;
    var j := i;
    while j > 0 && a[j - 1].createdAt < x.createdAt
      invariant j <= i
      invariant Shifting(a[..], sorted, rest, x, j)
    {
      ShiftStep(a[..], sorted, rest, x, j);
      a[j] := a[j - 1];
      j := j - 1;
    }
    PlaceStep(a[..], sorted, rest, x, j);
    a[j] := x;
  }

  /** The in-place insertion sort of the shared array: it ends in the order
      the stable sort specifies. */
  method SortInPlace(a: array<Issue>)
    modifies a
    ensures a[..] == SortByRecency(old(a[..]))
  {
    ghost var input := a[..];
    var i := 0;
    while i < a.Length
      invariant 0 <= i <= a.Length
      invariant a[..i] == SortByRecency(input[..i])
      invariant a[i..] == input[i..]
    {
      assert a[i] == input[i];
      InsertLatest(a, i);
      SortStep(input, i);
      i := i + 1;
    }
    assert a[..i] == a[..] && input[..i] == input;
  }

  /** The address shown for a recent issue, `address.split(',')[0]`: the
      longest prefix of the address without a comma. */
  function AddressHead(address: string): (r: string)
    ensures r <= address && ',' !in r
    ensures |r| < |address| ==> address[|r|] == ','
  {
    Split(address, ',')[0]
  }

  /** `getRecentIssues`: sorts the shared array in place, then takes at
      most five issues from its front. */
  method RecentIssues(a: array<Issue>) returns (recent: seq<Issue>)
    modifies a
    ensures a[..] == SortByRecency(old(a[..]))
    ensures recent == a[..if a.Length < 5 then a.Length else 5]
    ensures SortedByRecency(recent)
  {
    SortInPlace(a);
    recent := a[..if a.Length < 5 then a.Length else 5];
    SortIsSorted(old(a[..]));
  }

  /** The recent view holds min(5, n) issues of the input, newest first,
      none older than any issue left out; it is the front of a
      rearrangement of the input. */
  lemma RecentIsNewest(s: seq<Issue>)
    ensures var r := SortByRecency(s); var n := if |s| < 5 then |s| else 5;
      && |r[..n]| == n
      && multiset(r[..n]) <= multiset(s)
      && forall i, j :: 0 <= i < n <= j < |r| ==> r[i].createdAt >= r[j].createdAt
  {
    var r := SortByRecency(s);
    var n := if |s| < 5 then |s| else 5;
    SortIsSorted(s);
    SortPermutes(s);
    assert r == r[..n] + r[n..];
    assert multiset(r) == multiset(r[..n]) + multiset(r[n..]);
  }

  // ---------------------------------------------------------------------
  // Rendering over the shared array

  /** One render of the overview (`statusCounts`, `categoryBreakdown`,
      `recentIssues`, in that order) over the one issue array the whole
      application shares: the tiles and the breakdown see the array as it
      is, and the recent view then leaves it sorted newest first. */
  method Render(a: array<Issue>) returns (tiles: TileCounts, entries: seq<CategoryEntry>, recent: seq<Issue>)
    modifies a
    ensures tiles == StatusCounts(old(a[..]))
    ensures entries == Breakdown(old(a[..]))
    ensures a[..] == SortByRecency(old(a[..]))
    ensures recent == a[..if a.Length < 5 then a.Length else 5]
  {
    tiles := StatusCounts(a[..]);
    entries := CategoryBreakdown(a[..]);
    recent := RecentIssues(a);
  }

  /** Sorting an already sorted array changes nothing, so from the second
      render on every render sees the same, newest-first array. */
  lemma SortIdempotent(s: seq<Issue>)
    ensures SortByRecency(SortByRecency(s)) == SortByRecency(s)
  {
    var r := SortByRecency(s);
    SortIsSorted(s);
    StableSortsAgree(r, r);
  }

  /** Two issues of different categories list both, in array order. */
  lemma PairAppearance(x: Issue, y: Issue)
    requires x.category != y.category
    ensures FirstAppearance([x, y]) == [x.category, y.category]
  {
    assert [x][..0] == [];
    assert FirstAppearance([x]) == [x.category];
    assert [x, y][..1] == [x];
    assert y.category !in [x.category];
  }

  /** The newer of two issues is sorted first. */
  lemma SortPair(x: Issue, y: Issue)
    requires x.createdAt < y.createdAt
    ensures SortByRecency([x, y]) == [y, x]
  {
    assert [x][..0] == [];
    assert SortByRecency([x]) == Insert([], x) == [x];
    assert [x, y][..1] == [x];
    assert SortByRecency([x, y]) == Insert([x], y);
    assert Insert([x], y) == Insert([], y) + [x];
  }

  /** The first render's breakdown follows the array's own order, later
      ones the newest-first order: an older issue of one category before a
      newer one of another swaps their entries. */
  lemma SortReordersBreakdown(x: Issue, y: Issue)
    requires x.category != y.category && x.createdAt < y.createdAt
    ensures FirstAppearance([x, y]) == [x.category, y.category]
    ensures FirstAppearance(SortByRecency([x, y])) == [y.category, x.category]
  {
    PairAppearance(x, y);
    SortPair(x, y);
    PairAppearance(y, x);
  }

  /** Inserting an issue adds it to the count of its status. */
  lemma {:induction false} InsertKeepsStatusCount(s: seq<Issue>, x: Issue, st: Status)
    ensures CountStatus(Insert(s, x), st) == CountStatus(s, st) + (if x.status == st then 1 else 0)
  {
    if s == [] {
      assert [x][..0] == [];
    } else if s[|s| - 1].createdAt >= x.createdAt {
      assert (s + [x])[..|s|] == s;
    } else {
      var init := s[..|s| - 1];
      InsertKeepsStatusCount(init, x, st);
      var r := Insert(s, x);
      assert r[..|r| - 1] == Insert(init, x);
    }
  }

  /** Inserting an issue adds it to the count of its priority. */
  lemma {:induction false} InsertKeepsPriorityCount(s: seq<Issue>, x: Issue, p: Priority)
    ensures CountPriority(Insert(s, x), p) == CountPriority(s, p) + (if x.priority == p then 1 else 0)
  {
    if s == [] {
      assert [x][..0] == [];
    } else if s[|s| - 1].createdAt >= x.createdAt {
      assert (s + [x])[..|s|] == s;
    } else {
      var init := s[..|s| - 1];
      InsertKeepsPriorityCount(init, x, p);
      var r := Insert(s, x);
      assert r[..|r| - 1] == Insert(init, x);
    }
  }

  /** Sorting changes no status or priority count. */
  lemma {:induction false} SortKeepsCounts(s: seq<Issue>, st: Status, p: Priority)
    ensures CountStatus(SortByRecency(s), st) == CountStatus(s, st)
    ensures CountPriority(SortByRecency(s), p) == CountPriority(s, p)
  {
    if s != [] {
      var init := s[..|s| - 1];
      SortKeepsCounts(init, st, p);
      InsertKeepsStatusCount(SortByRecency(init), s[|s| - 1], st);
      InsertKeepsPriorityCount(SortByRecency(init), s[|s| - 1], p);
    }
  }

  /** The tiles of every render are the same: only the order of the
      shared array changes between renders. */
  lemma SortKeepsTiles(s: seq<Issue>)
    ensures StatusCounts(SortByRecency(s)) == StatusCounts(s)
  {
    SortKeepsCounts(s, New, Urgent);
    SortKeepsCounts(s, Assigned, Urgent);
    SortKeepsCounts(s, InProgress, Urgent);
    SortKeepsCounts(s, Resolved, Urgent);
  }
}
