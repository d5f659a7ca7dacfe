// The in-memory task table that stands in for the database: the shape a
// table keeps, the two count queries and the "newest incomplete" listing.
module TaskStore {
  import opened Tasks
  import opened TaskHelpers

  /** Every task is stored under its own id. */
  ghost predicate Keyed(tasks: map<nat, Task>)
  {
    forall id | id in tasks :: tasks[id].id == id
  }

  /** Tasks created later carry larger ids and later creation times. */
  ghost predicate CreatedInIdOrder(tasks: map<nat, Task>)
  {
    forall i, j | i in tasks && j in tasks && i < j :: tasks[i].createdAt < tasks[j].createdAt
  }

  /**
   * The shape every table keeps: ids are positive and below the next id to
   * hand out, timestamps lie before the clock, and creation order follows
   * id order (ids are handed out by an autoincrement counter).
   */
  ghost predicate WellFormed(tasks: map<nat, Task>, nextId: nat, clock: nat)
  {
    && nextId > 0
    && Keyed(tasks)
    && CreatedInIdOrder(tasks)
    && (forall id | id in tasks :: 0 < id < nextId)
    && (forall id | id in tasks :: tasks[id].createdAt <= tasks[id].updatedAt < clock)
  }

  /** The ids of the tasks whose completion flag is `completed`. */
  function IdsWhere(tasks: map<nat, Task>, completed: bool): (s: set<nat>)
    ensures forall id :: id in s <==> id in tasks && tasks[id].isCompleted == completed
  {
    set id | id in tasks && tasks[id].isCompleted == completed
  }

  /** The count query `count({where: {isCompleted: completed}})`. */
  function Count(tasks: map<nat, Task>, completed: bool): (n: nat)
  {
    |IdsWhere(tasks, completed)|
  }

  /** The stats object the routes report: incomplete and completed counts. */
  function StatsOf(tasks: map<nat, Task>): (s: Stats)
    ensures s.todo == Count(tasks, false) && s.completed == Count(tasks, true)
  {
    FormatStats(Count(tasks, false), Count(tasks, true))
  }

  /** The two counts split the table: todo + completed is its size. */
  lemma CountsPartition(tasks: map<nat, Task>)
    ensures Count(tasks, false) + Count(tasks, true) == |tasks|
  {
    var todo, done := IdsWhere(tasks, false), IdsWhere(tasks, true);
    assert todo * done == {};
    assert todo + done == tasks.Keys;
    assert |todo + done| == |todo| + |done|;
  }

  lemma StatsSumToSize(tasks: map<nat, Task>)
    ensures StatsOf(tasks).todo + StatsOf(tasks).completed == |tasks|
  {
    CountsPartition(tasks);
  }

  function Indicator(b: bool): (n: nat)
    ensures n == 1 <==> b
    ensures n <= 1
  {
    if b then 1 else 0
  }

  /** Inserting a task under a fresh id adds one to exactly its own count. */
  lemma CountAfterInsert(tasks: map<nat, Task>, id: nat, t: Task, completed: bool)
    requires id !in tasks
    ensures Count(tasks[id := t], completed)
         == Count(tasks, completed) + Indicator(t.isCompleted == completed)
  {
    var before, after := IdsWhere(tasks, completed), IdsWhere(tasks[id := t], completed);
    if t.isCompleted == completed {
      assert after == before + {id};
    } else {
      assert after == before;
    }
  }

  /** Removing a stored task takes one from exactly its own count. */
  lemma CountAfterRemove(tasks: map<nat, Task>, id: nat, completed: bool)
    requires id in tasks
    ensures Count(tasks - {id}, completed) + Indicator(tasks[id].isCompleted == completed)
         == Count(tasks, completed)
  {
    var before, after := IdsWhere(tasks, completed), IdsWhere(tasks - {id}, completed);
    assert after == before - {id};
    if tasks[id].isCompleted == completed {
      assert before == after + {id};
    }
  }

  /** Replacing a stored task moves it from its old count to its new one. */
  lemma CountAfterReplace(tasks: map<nat, Task>, id: nat, t: Task, completed: bool)
    requires id in tasks
    ensures Count(tasks[id := t], completed) + Indicator(tasks[id].isCompleted == completed)
         == Count(tasks, completed) + Indicator(t.isCompleted == completed)
  {
    CountAfterRemove(tasks, id, completed);
    assert tasks[id := t] == (tasks - {id})[id := t];
    CountAfterInsert(tasks - {id}, id, t, completed);
  }

  /**
   * The incomplete tasks with ids below `below`, newest first, at most
   * `take` of them: `findMany` with `isCompleted: false`, `createdAt`
   * descending and a limit, walked over the ids from the top down.
   */
  function NewestIncompleteBelow(tasks: map<nat, Task>, below: nat, take: nat): (r: seq<Task>)
    ensures |r| <= take
    decreases below
  {
    if below == 0 || take == 0 then []
    else if below - 1 in tasks && !tasks[below - 1].isCompleted then
      [tasks[below - 1]] + NewestIncompleteBelow(tasks, below - 1, take - 1)
    else
      NewestIncompleteBelow(tasks, below - 1, take)
  }

  /** Every listed task is stored under its id and is incomplete. */
  ghost predicate StoredIncomplete(tasks: map<nat, Task>, r: seq<Task>)
  {
    forall k | 0 <= k < |r| :: r[k].id in tasks && tasks[r[k].id] == r[k] && !r[k].isCompleted
  }

  /** Creation times strictly decrease along the list. */
  ghost predicate NewestFirst(r: seq<Task>)
  {
    forall k | 0 <= k < |r| - 1 :: r[k + 1].createdAt < r[k].createdAt
  }

  /**
   * What the listing promises, stated on creation times alone: at most
   * `take` stored incomplete tasks, strictly newest first, and any
   * incomplete task left out is older than every one listed and was left
   * out only because the limit was reached.
   */
  ghost predicate IsNewestIncomplete(tasks: map<nat, Task>, r: seq<Task>, take: nat)
  {
    && |r| <= take
    && StoredIncomplete(tasks, r)
    && NewestFirst(r)
    && (forall id | id in tasks && !tasks[id].isCompleted && tasks[id] !in r ::
          |r| == take && forall k | 0 <= k < |r| :: tasks[id].createdAt < r[k].createdAt)
  }

  ghost predicate IdsBelow(r: seq<Task>, below: nat)
  {
    forall k | 0 <= k < |r| :: r[k].id < below
  }

  /** The fourth clause of the promise, for the tasks with ids below `below`. */
  ghost predicate LeftOutBelowAreOlder(tasks: map<nat, Task>, r: seq<Task>, take: nat, below: nat)
  {
    forall id | id in tasks && id < below && !tasks[id].isCompleted && tasks[id] !in r ::
      |r| == take && forall k | 0 <= k < |r| :: tasks[id].createdAt < r[k].createdAt
  }

  /** The walk lists stored incomplete tasks with ids below `below`. */
  lemma {:induction false} WalkListsStoredIncomplete(tasks: map<nat, Task>, below: nat, take: nat)
    requires Keyed(tasks)
    ensures StoredIncomplete(tasks, NewestIncompleteBelow(tasks, below, take))
    ensures IdsBelow(NewestIncompleteBelow(tasks, below, take), below)
    decreases below
  {
    if below > 0 && take > 0 {
      var top := below - 1;
      var r := NewestIncompleteBelow(tasks, below, take);
      if top in tasks && !tasks[top].isCompleted {
        var r' := NewestIncompleteBelow(tasks, top, take - 1);
        WalkListsStoredIncomplete(tasks, top, take - 1);
        assert r == [tasks[top]] + r';
        forall k | 0 <= k < |r|
          ensures r[k].id < below && r[k].id in tasks && tasks[r[k].id] == r[k] && !r[k].isCompleted
        {
          if k > 0 {
            assert r[k] == r'[k - 1];
          }
        }
      } else {
        WalkListsStoredIncomplete(tasks, top, take);
      }
    }
  }

  /** The walk lists strictly newest first. */
  lemma {:induction false} WalkIsNewestFirst(tasks: map<nat, Task>, below: nat, take: nat)
    requires Keyed(tasks) && CreatedInIdOrder(tasks)
    ensures NewestFirst(NewestIncompleteBelow(tasks, below, take))
    decreases below
  {
    if below > 0 && take > 0 {
      var top := below - 1;
      var r := NewestIncompleteBelow(tasks, below, take);
      if top in tasks && !tasks[top].isCompleted {
        var r' := NewestIncompleteBelow(tasks, top, take - 1);
        WalkIsNewestFirst(tasks, top, take - 1);
        WalkListsStoredIncomplete(tasks, top, take - 1);
        assert r == [tasks[top]] + r';
        forall k | 0 <= k < |r| - 1 ensures r[k + 1].createdAt < r[k].createdAt {
          if k == 0 {
            assert r[1] == r'[0];
          } else {
            assert r[k + 1] == r'[k] && r[k] == r'[k - 1];
          }
        }
      } else {
        WalkIsNewestFirst(tasks, top, take);
      }
    }
  }

  /** An incomplete task the walk leaves out is older than all it lists, and the limit was reached. */
  lemma {:induction false} WalkMissesOnlyOlder(tasks: map<nat, Task>, below: nat, take: nat)
    requires Keyed(tasks) && CreatedInIdOrder(tasks)
    ensures LeftOutBelowAreOlder(tasks, NewestIncompleteBelow(tasks, below, take), take, below)
    decreases below
  {
    if below > 0 && take > 0 {
      var top := below - 1;
      var r := NewestIncompleteBelow(tasks, below, take);
      if top in tasks && !tasks[top].isCompleted {
        var r' := NewestIncompleteBelow(tasks, top, take - 1);
        WalkMissesOnlyOlder(tasks, top, take - 1);
        assert r == [tasks[top]] + r';
        forall id | id in tasks && id < below && !tasks[id].isCompleted && tasks[id] !in r
          ensures |r| == take && forall k | 0 <= k < |r| :: tasks[id].createdAt < r[k].createdAt
        {
          assert id != top by { assert r[0] == tasks[top]; }
          assert tasks[id] !in r';
          assert tasks[id].createdAt < tasks[top].createdAt;
          forall k | 0 <= k < |r| ensures tasks[id].createdAt < r[k].createdAt {
            if k > 0 {
              assert r[k] == r'[k - 1];
            }
          }
        }
      } else {
        WalkMissesOnlyOlder(tasks, top, take);
      }
    }
  }

  /** On a well-formed table, walking down from the next id lists exactly what was promised. */
  lemma NewestIncompleteMeetsPromise(tasks: map<nat, Task>, nextId: nat, clock: nat, take: nat)
    requires WellFormed(tasks, nextId, clock)
    ensures IsNewestIncomplete(tasks, NewestIncompleteBelow(tasks, nextId, take), take)
  {
    WalkListsStoredIncomplete(tasks, nextId, take);
    WalkIsNewestFirst(tasks, nextId, take);
    WalkMissesOnlyOlder(tasks, nextId, take);
  }

  /** On a well-formed table, a list meets the promise exactly when it is the walk from the next id. */
  lemma ListingIsTheWalk(tasks: map<nat, Task>, nextId: nat, clock: nat, take: nat, r: seq<Task>)
    requires WellFormed(tasks, nextId, clock)
    ensures IsNewestIncomplete(tasks, r, take) <==> r == NewestIncompleteBelow(tasks, nextId, take)
  {
    NewestIncompleteMeetsPromise(tasks, nextId, clock, take);
    if IsNewestIncomplete(tasks, r, take) {
      NewestIncompleteIsUnique(tasks, r, NewestIncompleteBelow(tasks, nextId, take), take);
    }
  }

  /** The head of a listing is at least as new as any stored incomplete task. */
  lemma NewestListedFirst(tasks: map<nat, Task>, r: seq<Task>, take: nat, id: nat)
    requires IsNewestIncomplete(tasks, r, take) && r != []
    requires id in tasks && !tasks[id].isCompleted
    ensures tasks[id].createdAt <= r[0].createdAt
  {
    Sorted(r);
  }

  /** Two listings that meet the promise start with the same task. */
  lemma HeadsAgree(tasks: map<nat, Task>, r: seq<Task>, s: seq<Task>, take: nat)
    requires Keyed(tasks) && CreatedInIdOrder(tasks)
    requires IsNewestIncomplete(tasks, r, take) && IsNewestIncomplete(tasks, s, take)
    requires r != [] && s != []
    ensures r[0] == s[0]
  {
    NewestListedFirst(tasks, r, take, s[0].id);
    NewestListedFirst(tasks, s, take, r[0].id);
    assert r[0].id == s[0].id;
  }

  /** With a positive limit, a listing is empty only when no stored task is incomplete. */
  lemma ListedWhenAny(tasks: map<nat, Task>, r: seq<Task>, take: nat, id: nat)
    requires IsNewestIncomplete(tasks, r, take) && take > 0
    requires id in tasks && !tasks[id].isCompleted
    ensures r != []
  {
  }

  /** The promise pins the listing down: two listings that meet it are equal. */
  lemma {:induction false} NewestIncompleteIsUnique(tasks: map<nat, Task>, r: seq<Task>, s: seq<Task>, take: nat)
    requires Keyed(tasks) && CreatedInIdOrder(tasks)
    requires IsNewestIncomplete(tasks, r, take) && IsNewestIncomplete(tasks, s, take)
    ensures r == s
    decreases take
  {
    if r != [] {
      ListedWhenAny(tasks, s, take, r[0].id);
    }
    if s != [] {
      ListedWhenAny(tasks, r, take, s[0].id);
    }
    if r != [] && s != [] {
      HeadsAgree(tasks, r, s, take);
      TailIsNewestIncomplete(tasks, r, take);
      TailIsNewestIncomplete(tasks, s, take);
      NewestIncompleteIsUnique(tasks - {r[0].id}, r[1..], s[1..], take - 1);
      SameHeadSameTail(r, s);
    }
  }

  lemma SameHeadSameTail(r: seq<Task>, s: seq<Task>)
    requires r != [] && s != [] && r[0] == s[0] && r[1..] == s[1..]
    ensures r == s
  {
    assert r == [r[0]] + r[1..] && s == [s[0]] + s[1..];
  }

  /** Dropping the newest listed task leaves a listing of the rest of the table. */
  lemma TailIsNewestIncomplete(tasks: map<nat, Task>, r: seq<Task>, take: nat)
    requires Keyed(tasks) && CreatedInIdOrder(tasks)
    requires IsNewestIncomplete(tasks, r, take) && r != []
    ensures take > 0 && IsNewestIncomplete(tasks - {r[0].id}, r[1..], take - 1)
    ensures Keyed(tasks - {r[0].id}) && CreatedInIdOrder(tasks - {r[0].id})
  {
    Sorted(r);
    var rest, tail := tasks - {r[0].id}, r[1..];
    assert forall k | 0 <= k < |tail| :: tail[k] == r[k + 1];
    forall k | 0 <= k < |tail| ensures tail[k].id in rest && rest[tail[k].id] == tail[k] {
      assert tail[k].createdAt < r[0].createdAt;
    }
    forall id | id in rest && !rest[id].isCompleted && rest[id] !in tail
      ensures |tail| == take - 1 && forall k | 0 <= k < |tail| :: rest[id].createdAt < tail[k].createdAt
    {
      assert rest[id] == tasks[id];
      assert tasks[id] != r[0];
      assert tasks[id] !in r;
    }
  }

  /** Strictly descending creation times, between any two positions. */
  lemma {:induction false} Sorted(r: seq<Task>)
    requires NewestFirst(r)
    ensures forall i, j | 0 <= i < j < |r| :: r[j].createdAt < r[i].createdAt
    decreases |r|
  {
    if |r| > 1 {
      var tail := r[1..];
      assert forall k | 0 <= k < |tail| :: tail[k] == r[k + 1];
      Sorted(tail);
      forall i, j | 0 <= i < j < |r| ensures r[j].createdAt < r[i].createdAt {
        if i > 0 {
          assert r[j] == tail[j - 1] && r[i] == tail[i - 1];
        } else if j > 1 {
          assert r[j] == tail[j - 1] && r[1] == tail[0];
        }
      }
    }
  }
}
