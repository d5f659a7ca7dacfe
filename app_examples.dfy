// Concrete consequences of the route contracts, matching the scenarios the
// backend's integration tests walk through.
module AppExamples {
  import opened JsValues
  import opened NumberConversion
  import opened Validators
  import opened Tasks
  import opened TaskHelpers
  import opened TaskStore
  import opened App

  /** Walking the ids 1..7 of seven incomplete tasks from the top yields 7, 6, 5, 4, 3. */
  lemma SevenIncompleteWalk(tasks: map<nat, Task>)
    requires forall id :: id in tasks <==> 1 <= id <= 7
    requires forall id | id in tasks :: !tasks[id].isCompleted
    ensures NewestIncompleteBelow(tasks, 8, 5) == [tasks[7], tasks[6], tasks[5], tasks[4], tasks[3]]
  {
    assert NewestIncompleteBelow(tasks, 3, 0) == [];
    assert NewestIncompleteBelow(tasks, 4, 1) == [tasks[3]];
    assert NewestIncompleteBelow(tasks, 5, 2) == [tasks[4], tasks[3]];
    assert NewestIncompleteBelow(tasks, 6, 3) == [tasks[5], tasks[4], tasks[3]];
    assert NewestIncompleteBelow(tasks, 7, 4) == [tasks[6], tasks[5], tasks[4], tasks[3]];
  }

  /**
   * Seven incomplete tasks created one after the other: the one list that
   * meets the listing's promise is Task 7 down to Task 3.
   */
  lemma SevenCreatedListsNewestFive(tasks: map<nat, Task>, clock: nat, r: seq<Task>)
    requires forall id :: id in tasks <==> 1 <= id <= 7
    requires forall id | id in tasks :: !tasks[id].isCompleted
    requires WellFormed(tasks, 8, clock)
    requires IsNewestIncomplete(tasks, r, ListLimit)
    ensures r == [tasks[7], tasks[6], tasks[5], tasks[4], tasks[3]]
    ensures forall k | 0 <= k < |r| :: r[k].id == 7 - k
  {
    SevenIncompleteWalk(tasks);
    ListingIsTheWalk(tasks, 8, clock, ListLimit, r);
  }

  /** Ten tasks of which seven are completed: stats 3 and 7, total 10, 70 percent. */
  lemma StatsExample(tasks: map<nat, Task>)
    requires Count(tasks, false) == 3 && Count(tasks, true) == 7
    ensures |tasks| == 10
    ensures CalculateCompletionPercentage(Count(tasks, true), |tasks|) == 70
  {
    CountsPartition(tasks);
  }

  /** `GET /tasks/9999` looks up task 9999. */
  lemma NumericRouteIdExample()
    ensures IsValidId(JsString("9999")) && IdOf("9999") == 9999
  {
    assert DecimalString(9999) == "9999";
    IdOfDecimalString(9999);
  }

  /** `GET /tasks/invalid` is refused before any lookup. */
  lemma WordRouteIdExample()
    ensures !IsValidId(JsString("invalid"))
  {
    TrimClean("invalid");
    ValidIdRejectsOtherCharacters("invalid", 0);
  }
}
