/** The records of the civic issue tracker: issues, the filter state that
    drives the issue list, and the staff user record. Timestamps are
    modelled as integer instants. */
module Types {

  datatype Option<+T> = None | Some(value: T)

  /** An instant in time (the source keeps ISO-8601 strings). */
  type Instant = int

  datatype Category = Pothole | Streetlight | Trash | Graffiti | WaterLeak | TrafficSign | OtherCategory

  datatype Priority = Low | Medium | High | Urgent

  datatype Status = New | Assigned | InProgress | Resolved | Closed

  /** The string each enumeration value carries in the source. */
  function CategoryKey(c: Category): string
  {
    match c
    case Pothole => "pothole"
    case Streetlight => "streetlight"
    case Trash => "trash"
    case Graffiti => "graffiti"
    case WaterLeak => "water_leak"
    case TrafficSign => "traffic_sign"
    case OtherCategory => "other"
  }

  function PriorityKey(p: Priority): string
  {
    match p
    case Low => "low"
    case Medium => "medium"
    case High => "high"
    case Urgent => "urgent"
  }

  function StatusKey(s: Status): string
  {
    match s
    case New => "new"
    case Assigned => "assigned"
    case InProgress => "in_progress"
    case Resolved => "resolved"
    case Closed => "closed"
  }

  /** Reading a category string back; strings outside the union give None. */
  function ParseCategory(s: string): (r: Option<Category>)
    ensures r.Some? ==> CategoryKey(r.value) == s
    ensures r.None? ==> forall c: Category :: CategoryKey(c) != s
  {
    if s == "pothole" then Some(Pothole)
    else if s == "streetlight" then Some(Streetlight)
    else if s == "trash" then Some(Trash)
    else if s == "graffiti" then Some(Graffiti)
    else if s == "water_leak" then Some(WaterLeak)
    else if s == "traffic_sign" then Some(TrafficSign)
    else if s == "other" then Some(OtherCategory)
    else None
  }

  function ParsePriority(s: string): (r: Option<Priority>)
    ensures r.Some? ==> PriorityKey(r.value) == s
    ensures r.None? ==> forall p: Priority :: PriorityKey(p) != s
  {
    if s == "low" then Some(Low)
    else if s == "medium" then Some(Medium)
    else if s == "high" then Some(High)
    else if s == "urgent" then Some(Urgent)
    else None
  }

  function ParseStatus(s: string): (r: Option<Status>)
    ensures r.Some? ==> StatusKey(r.value) == s
    ensures r.None? ==> forall st: Status :: StatusKey(st) != s
  {
    if s == "new" then Some(New)
    else if s == "assigned" then Some(Assigned)
    else if s == "in_progress" then Some(InProgress)
    else if s == "resolved" then Some(Resolved)
    else if s == "closed" then Some(Closed)
    else None
  }

  /** Each key names exactly one value: the key functions are injective
      and parsing inverts them. */
  lemma KeysRoundTrip(c: Category, p: Priority, s: Status)
    ensures ParseCategory(CategoryKey(c)) == Some(c)
    ensures ParsePriority(PriorityKey(p)) == Some(p)
    ensures ParseStatus(StatusKey(s)) == Some(s)
  {
  }

  const AllCategories: seq<Category> := [Pothole, Streetlight, Trash, Graffiti, WaterLeak, TrafficSign, OtherCategory]
  const AllPriorities: seq<Priority> := [Low, Medium, High, Urgent]
  const AllStatuses: seq<Status> := [New, Assigned, InProgress, Resolved, Closed]

  /** There are exactly seven categories, four priorities and five statuses. */
  lemma EnumerationsComplete()
    ensures |AllCategories| == 7 && |AllPriorities| == 4 && |AllStatuses| == 5
    ensures forall c: Category :: c in AllCategories
    ensures forall p: Priority :: p in AllPriorities
    ensures forall s: Status :: s in AllStatuses
  {
    forall c: Category ensures c in AllCategories {
      match c
      case Pothole => assert AllCategories[0] == c;
      case Streetlight => assert AllCategories[1] == c;
      case Trash => assert AllCategories[2] == c;
      case Graffiti => assert AllCategories[3] == c;
      case WaterLeak => assert AllCategories[4] == c;
      case TrafficSign => assert AllCategories[5] == c;
      case OtherCategory => assert AllCategories[6] == c;
    }
    forall p: Priority ensures p in AllPriorities {
      match p
      case Low => assert AllPriorities[0] == p;
      case Medium => assert AllPriorities[1] == p;
      case High => assert AllPriorities[2] == p;
      case Urgent => assert AllPriorities[3] == p;
    }
    forall s: Status ensures s in AllStatuses {
      match s
      case New => assert AllStatuses[0] == s;
      case Assigned => assert AllStatuses[1] == s;
      case InProgress => assert AllStatuses[2] == s;
      case Resolved => assert AllStatuses[3] == s;
      case Closed => assert AllStatuses[4] == s;
    }
  }

  datatype Role = Admin | Staff | DepartmentHead

  datatype User = User(id: string, email: string, name: string, role: Role, department: string)

  datatype Location = Location(address: string, lat: real, lng: real)

  /** The citizen who reported an issue; the contact email is optional. */
  datatype Reporter = Reporter(id: string, name: string, email: Option<string>)

  /** The staff member an issue is assigned to. */
  datatype Assignee = Assignee(id: string, name: string, department: string)

  datatype Issue = Issue(
    id: string,
    title: string,
    description: string,
    category: Category,
    priority: Priority,
    status: Status,
    location: Location,
    imageUrl: string,
    reportedBy: Reporter,
    assignedTo: Option<Assignee>,
    createdAt: Instant,
    updatedAt: Instant,
    resolvedAt: Option<Instant>,
    estimatedResolution: Option<Instant>)

  /** The two date bounds are independently optional. */
  datatype DateRange = DateRange(start: Option<Instant>, end: Option<Instant>)

  /** The three selection lists hold plain strings, not enumeration values,
      so they may contain strings no issue carries. */
  datatype FilterState = FilterState(
    category: seq<string>,
    priority: seq<string>,
    status: seq<string>,
    location: string,
    dateRange: DateRange)

  /** The filter state the issue list starts from and is cleared to. */
  const EmptyFilters: FilterState := FilterState([], [], [], "", DateRange(None, None))
}
