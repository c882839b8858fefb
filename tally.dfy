/** Counting issues by status, priority and category (the
    `issues.filter(i => i.status === s).length` pattern). Each count is
    defined on the list's last element so that a left-to-right scan
    extends it one element at a time. */
module Tally {
  import opened Types

  function CountStatus(issues: seq<Issue>, s: Status): (n: nat)
    ensures n <= |issues|
  {
    if issues == [] then 0
    else CountStatus(issues[..|issues| - 1], s) + (if issues[|issues| - 1].status == s then 1 else 0)
  }

  function CountPriority(issues: seq<Issue>, p: Priority): (n: nat)
    ensures n <= |issues|
  {
    if issues == [] then 0
    else CountPriority(issues[..|issues| - 1], p) + (if issues[|issues| - 1].priority == p then 1 else 0)
  }

  function CountCategory(issues: seq<Issue>, c: Category): (n: nat)
    ensures n <= |issues|
  {
    if issues == [] then 0
    else CountCategory(issues[..|issues| - 1], c) + (if issues[|issues| - 1].category == c then 1 else 0)
  }

  /** A category counts at least once exactly when some issue has it. */
  lemma {:induction false} CountCategoryPositive(issues: seq<Issue>, c: Category)
    ensures CountCategory(issues, c) > 0 <==> exists i :: 0 <= i < |issues| && issues[i].category == c
  {
    if issues != [] {
      var prefix := issues[..|issues| - 1];
      CountCategoryPositive(prefix, c);
      assert forall i :: 0 <= i < |prefix| ==> prefix[i] == issues[i];
    }
  }

  /** Every issue has exactly one of the five statuses, so the five counts
      add up to the length of the list. */
  lemma {:induction false} StatusCountsPartition(issues: seq<Issue>)
    ensures CountStatus(issues, New) + CountStatus(issues, Assigned) + CountStatus(issues, InProgress)
      + CountStatus(issues, Resolved) + CountStatus(issues, Closed) == |issues|
  {
    if issues != [] {
      StatusCountsPartition(issues[..|issues| - 1]);
    }
  }
}
