/** The filter sidebar: each control turns the current filter state into
    a new one (checkbox toggles on the three lists, the location text, the
    two date inputs), and the header counts the active filters to decide
    whether "Clear All" is offered. */
module FilterSidebar {
  import opened Types

  /** The three list-valued keys of the filter state a checkbox edits. */
  datatype ListKey = CategoryList | PriorityList | StatusList

  function Selected(f: FilterState, key: ListKey): seq<string>
  {
    match key
    case CategoryList => f.category
    case PriorityList => f.priority
    case StatusList => f.status
  }

  /** `{ ...filters, [filterKey]: list }`. */
  function WithList(f: FilterState, key: ListKey, list: seq<string>): (r: FilterState)
    ensures Selected(r, key) == list
    ensures forall other :: other != key ==> Selected(r, other) == Selected(f, other)
    ensures r.location == f.location && r.dateRange == f.dateRange
  {
    match key
    case CategoryList => f.(category := list)
    case PriorityList => f.(priority := list)
    case StatusList => f.(status := list)
  }

  predicate NoDuplicates(list: seq<string>)
  {
    forall i, j :: 0 <= i < j < |list| ==> list[i] != list[j]
  }

  /** `list.filter(item => item !== value)`. */
  function RemoveAll(list: seq<string>, value: string): (r: seq<string>)
    ensures forall x :: x in r <==> x in list && x != value
    ensures forall x :: multiset(r)[x] == if x == value then 0 else multiset(list)[x]
    ensures |r| <= |list|
  {
    if list == [] then []
    else
      var prefix := list[..|list| - 1];
      var last := list[|list| - 1];
      assert list == prefix + [last];
      RemoveAll(prefix, value) + (if last == value then [] else [last])
  }

  /** The list step of `handleArrayFilterChange`: a present value loses
      all its occurrences, an absent one is appended at the end. */
  function Toggle(list: seq<string>, value: string): (r: seq<string>)
    ensures value in r <==> value !in list
    ensures forall x :: x != value ==> (x in r <==> x in list)
    ensures value !in list ==> r == list + [value]
  {
    if value in list then RemoveAll(list, value) else list + [value]
  }

  /** `a` is `b` with some elements left out, the rest in their order. */
  predicate IsSublist(a: seq<string>, b: seq<string>)
    decreases |b|
  {
    if a == [] then true
    else if b == [] then false
    else if a[|a| - 1] == b[|b| - 1] then IsSublist(a[..|a| - 1], b[..|b| - 1])
    else IsSublist(a, b[..|b| - 1])
  }

  /** `filter` keeps the surviving values in their order. */
  lemma {:induction false} RemoveAllKeepsOrder(list: seq<string>, value: string)
    ensures IsSublist(RemoveAll(list, value), list)
  {
    if list != [] {
      var prefix := list[..|list| - 1];
      var last := list[|list| - 1];
      RemoveAllKeepsOrder(prefix, value);
      var r := RemoveAll(list, value);
      if last != value {
        assert r == RemoveAll(prefix, value) + [last];
        assert r[..|r| - 1] == RemoveAll(prefix, value);
      } else if r != [] {
        assert r == RemoveAll(prefix, value);
        assert r[|r| - 1] in r;
      }
    }
  }

  lemma {:induction false} RemoveAllAbsent(list: seq<string>, value: string)
    requires value !in list
    ensures RemoveAll(list, value) == list
  {
    if list != [] {
      var prefix := list[..|list| - 1];
      assert list == prefix + [list[|list| - 1]];
      RemoveAllAbsent(prefix, value);
    }
  }

  lemma {:induction false} RemoveAllKeepsNoDuplicates(list: seq<string>, value: string)
    requires NoDuplicates(list)
    ensures NoDuplicates(RemoveAll(list, value))
  {
    if list != [] {
      var prefix := list[..|list| - 1];
      var last := list[|list| - 1];
      assert list == prefix + [last];
      assert last !in prefix;
      RemoveAllKeepsNoDuplicates(prefix, value);
    }
  }

  /** Removing a value that occurs once shortens the list by one. */
  lemma {:induction false} RemoveAllOnce(list: seq<string>, value: string)
    requires NoDuplicates(list) && value in list
    ensures |RemoveAll(list, value)| == |list| - 1
  {
    var prefix := list[..|list| - 1];
    var last := list[|list| - 1];
    assert list == prefix + [last];
    if last == value {
      assert value !in prefix;
      RemoveAllAbsent(prefix, value);
    } else {
      RemoveAllOnce(prefix, value);
    }
  }

  /** Toggling keeps a list free of duplicates. */
  lemma ToggleKeepsNoDuplicates(list: seq<string>, value: string)
    requires NoDuplicates(list)
    ensures NoDuplicates(Toggle(list, value))
  {
    if value in list {
      RemoveAllKeepsNoDuplicates(list, value);
    }
  }

  /** Toggling an absent value twice gives the original list back. */
  lemma ToggleTwiceRestores(list: seq<string>, value: string)
    requires value !in list
    ensures Toggle(Toggle(list, value), value) == list
  {
    var once := list + [value];
    assert once[..|once| - 1] == list;
    RemoveAllAbsent(list, value);
  }

  /** `handleArrayFilterChange`: only the named list changes. */
  function ToggleFilter(f: FilterState, key: ListKey, value: string): (r: FilterState)
    ensures value in Selected(r, key) <==> value !in Selected(f, key)
    ensures forall other :: other != key ==> Selected(r, other) == Selected(f, other)
    ensures r.location == f.location && r.dateRange == f.dateRange
  {
    WithList(f, key, Toggle(Selected(f, key), value))
  }

  /** `handleLocationChange`: only the location changes. */
  function ChangeLocation(f: FilterState, location: string): (r: FilterState)
    ensures r.location == location
    ensures r.category == f.category && r.priority == f.priority && r.status == f.status
    ensures r.dateRange == f.dateRange
  {
    f.(location := location)
  }

  /** The start date input; an emptied input is None. The end bound and
      every other field are kept. */
  function ChangeStart(f: FilterState, start: Option<Instant>): (r: FilterState)
    ensures r.dateRange.start == start && r.dateRange.end == f.dateRange.end
    ensures r.(dateRange := f.dateRange) == f
  {
    f.(dateRange := f.dateRange.(start := start))
  }

  /** The end date input; the start bound and every other field are kept. */
  function ChangeEnd(f: FilterState, end: Option<Instant>): (r: FilterState)
    ensures r.dateRange.end == end && r.dateRange.start == f.dateRange.start
    ensures r.(dateRange := f.dateRange) == f
  {
    f.(dateRange := f.dateRange.(end := end))
  }

  /** `getActiveFiltersCount`: every selected list entry counts, a
      non-empty location counts once, the date range never counts. */
  function ActiveFiltersCount(f: FilterState): (n: nat)
    ensures n == 0 <==> f.category == [] && f.priority == [] && f.status == [] && f.location == ""
    ensures n >= |f.category| + |f.priority| + |f.status|
  {
    |f.category| + |f.priority| + |f.status| + (if f.location != "" then 1 else 0)
  }

  /** "Clear All" is offered exactly when some filter is active. */
  predicate OffersClearAll(f: FilterState)
  {
    ActiveFiltersCount(f) > 0
  }

  /** A filter that only sets date bounds does not offer "Clear All", and
      editing either bound to any value keeps it that way. */
  lemma DateOnlyFilterOffersNoClearAll(f: FilterState, start: Option<Instant>, end: Option<Instant>)
    requires f.category == [] && f.priority == [] && f.status == [] && f.location == ""
    ensures !OffersClearAll(f)
    ensures !OffersClearAll(ChangeStart(f, start)) && !OffersClearAll(ChangeEnd(f, end))
  {
  }

  /** With duplicate-free lists a toggle moves the active count by one:
      down when the value was checked, up when it was not. */
  lemma ToggleMovesActiveCount(f: FilterState, key: ListKey, value: string)
    requires NoDuplicates(Selected(f, key))
    ensures ActiveFiltersCount(ToggleFilter(f, key, value)) ==
      ActiveFiltersCount(f) + (if value in Selected(f, key) then -1 else 1)
  {
    var list := Selected(f, key);
    if value in list {
      RemoveAllOnce(list, value);
    }
    var r := ToggleFilter(f, key, value);
    assert Selected(r, key) == Toggle(list, value);
    match key
    case CategoryList =>
    case PriorityList =>
    case StatusList =>
  }
}
