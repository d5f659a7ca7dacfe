// The six route handlers of the backend, modelled over an in-memory task
// table. Each handler is one method of the table; every store call a
// handler makes is numbered, and a `Fault` says which of them fails.
module App {
  import opened Wrappers
  import opened JsValues
  import opened NumberConversion
  import opened Validators
  import opened Tasks
  import opened TaskHelpers
  import opened TaskStore

  const TitleRequired := "Title is required"
  const InvalidTaskId := "Invalid task ID"
  const TaskNotFound := "Task not found"

  /** The `take` of the listing route. */
  const ListLimit: nat := 5

  /** The JSON bodies the routes send. */
  datatype Body =
    | ErrorBody(error: string)
    | TaskEnvelope(envelope: TaskResponse)
    | TasksEnvelope(list: TasksResponse)
    | TaskBody(task: Task)
    | StatsBody(todo: nat, completed: nat, total: nat, completionPercentage: nat)

  datatype Response = Response(status: nat, body: Body)

  /** The store call (counted from 0 within one request) that throws, with its message. */
  datatype Fault = NoFault | Failing(call: nat, message: string)

  /** How a store mutation fails: Prisma's P2025 "record not found", or anything else. */
  datatype StoreError = RecordNotFound | DbError(message: string)

  predicate Fails(fault: Fault, call: nat)
  {
    fault.Failing? && fault.call == call
  }

  /** A failing store call: 500 with the error's message as it is. */
  function ServerError(message: string): (resp: Response)
    ensures resp.status == 500 && resp.body == ErrorBody(message)
  {
    Response(500, ErrorBody(message))
  }

  /** The catch block of PUT and DELETE: only P2025 becomes a 404. */
  function CatchMutationError(e: StoreError): (resp: Response)
    ensures resp.status == 404 <==> e.RecordNotFound?
    ensures e.RecordNotFound? ==> resp.body == ErrorBody(TaskNotFound)
    ensures e.DbError? ==> resp == ServerError(e.message)
  {
    match e
    case RecordNotFound => Response(404, ErrorBody(TaskNotFound))
    case DbError(m) => ServerError(m)
  }

  /** `Number(id)` for a route id that passed `isValidId`. */
  function IdOf(id: string): (key: nat)
    requires IsValidId(JsString(id))
    ensures key > 0 && ToNumber(JsString(id)) == Some(key as real)
  {
    var x := ToNumber(JsString(id)).value;
    assert x.Floor as real == x;
    x.Floor
  }

  /** The decimal form of a positive id is a valid route id naming that id. */
  lemma IdOfDecimalString(n: nat)
    requires n > 0
    ensures IsValidId(JsString(DecimalString(n))) && IdOf(DecimalString(n)) == n
  {
    ValidIdPositiveIntegers(n);
    DecimalRoundTrip(n);
  }

  /** The `{title, description}` object the POST route hands to the sanitiser. */
  function PostBody(title: JsValue, description: JsValue): (data: map<string, JsValue>)
    ensures Field(data, "title") == title && Field(data, "description") == description
    ensures Field(data, "isCompleted") == JsUndefined
  {
    map["title" := title, "description" := description]
  }

  class TaskTable {
    var tasks: map<nat, Task>
    var nextId: nat
    var clock: nat

    ghost predicate Valid()
      reads this
    {
      WellFormed(tasks, nextId, clock)
    }

    /** An empty table; the first id handed out is 1. */
    constructor ()
      ensures Valid() && tasks == map[] && nextId == 1 && clock == 0
    {
      tasks := map[];
      nextId := 1;
      clock := 0;
    }

    /** `prisma.task.create`: a fresh id, the current tick as both timestamps, not completed. */
    method Create(title: string, description: string) returns (task: Task)
      requires Valid()
      modifies this
      ensures Valid()
      ensures old(nextId) !in old(tasks)
      ensures task == Task(old(nextId), title, description, false, old(clock), old(clock))
      ensures tasks == old(tasks)[task.id := task]
      ensures nextId == old(nextId) + 1 && clock == old(clock) + 1
    {
      task := Task(nextId, title, description, false, clock, clock);
      tasks := tasks[nextId := task];
      nextId := nextId + 1;
      clock := clock + 1;
    }

    /** `prisma.task.update`: the patch applied to the one task, or P2025 when it is absent. */
    method Update(key: nat, patch: Patch) returns (r: Result<Task, StoreError>)
      requires Valid()
      modifies this
      ensures Valid()
      ensures key !in old(tasks) ==> r == Failure(RecordNotFound) && unchanged(this)
      ensures key in old(tasks) ==>
        && r == Success(ApplyPatch(old(tasks)[key], patch, old(clock)))
        && tasks == old(tasks)[key := r.value]
        && nextId == old(nextId) && clock == old(clock) + 1
    {
      if key !in tasks {
        return Failure(RecordNotFound);
      }
      var task := ApplyPatch(tasks[key], patch, clock);
      tasks := tasks[key := task];
      clock := clock + 1;
      r := Success(task);
    }

    /** `prisma.task.delete`: the one task removed and returned, or P2025 when it is absent. */
    method Delete(key: nat) returns (r: Result<Task, StoreError>)
      requires Valid()
      modifies this
      ensures Valid()
      ensures key !in old(tasks) ==> r == Failure(RecordNotFound) && unchanged(this)
      ensures key in old(tasks) ==>
        && r == Success(old(tasks)[key])
        && tasks == old(tasks) - {key}
        && nextId == old(nextId) && clock == old(clock)
    {
      if key !in tasks {
        return Failure(RecordNotFound);
      }
      r := Success(tasks[key]);
      tasks := tasks - {key};
    }

    /** The two count reads that follow a store call, as store calls `first` and `first + 1`. */
    method ReadStats(first: nat, fault: Fault) returns (r: Result<Stats, string>)
      requires Valid()
      ensures r.Failure? <==> Fails(fault, first) || Fails(fault, first + 1)
      ensures r.Failure? ==> r.error == fault.message
      ensures r.Success? ==> r.value == StatsOf(tasks)
      ensures r.Success? ==> r.value.todo + r.value.completed == |tasks|
    {
      if Fails(fault, first) {
        return Failure(fault.message);
      }
      var todoCount := Count(tasks, false);
      if Fails(fault, first + 1) {
        return Failure(fault.message);
      }
      var completedCount := Count(tasks, true);
      StatsSumToSize(tasks);
      r := Success(FormatStats(todoCount, completedCount));
    }

    /**
     * POST /tasks. Store calls: 0 create, 1 and 2 the counts. A count that
     * fails after the create leaves the new task in place.
     */
    method PostTasks(title: JsValue, description: JsValue, fault: Fault) returns (resp: Response)
      requires Valid()
      modifies this
      ensures Valid()
      ensures !IsValidTitle(title) ==> resp == Response(400, ErrorBody(TitleRequired)) && unchanged(this)
      ensures var data := SanitizeTaskData(PostBody(title, description));
        IsValidTitle(title) && data.Failure? ==> resp == ServerError(data.error) && unchanged(this)
      ensures var data := SanitizeTaskData(PostBody(title, description));
        IsValidTitle(title) && data.Success? && Fails(fault, 0) ==>
          resp == ServerError(fault.message) && unchanged(this)
      ensures var data := SanitizeTaskData(PostBody(title, description));
        IsValidTitle(title) && data.Success? && !Fails(fault, 0) ==>
          var task := Task(old(nextId), data.value.title, data.value.description, false, old(clock), old(clock));
          && old(nextId) !in old(tasks)
          && tasks == old(tasks)[task.id := task]
          && nextId == old(nextId) + 1 && clock == old(clock) + 1
          && (Fails(fault, 1) || Fails(fault, 2) ==> resp == ServerError(fault.message))
          && (!Fails(fault, 1) && !Fails(fault, 2) ==>
                resp == Response(201, TaskEnvelope(TaskResponse(Some(task), StatsOf(tasks)))))
      ensures resp.status == 201 ==>
        && resp.body.TaskEnvelope?
        && resp.body.envelope.stats.todo == Count(old(tasks), false) + 1
        && resp.body.envelope.stats.completed == Count(old(tasks), true)
    {
      if !IsValidTitle(title) {
        return Response(400, ErrorBody(TitleRequired));
      }
      var sanitized := SanitizeTaskData(PostBody(title, description));
      if sanitized.Failure? {
        return ServerError(sanitized.error);
      }
      if Fails(fault, 0) {
        return ServerError(fault.message);
      }
      ghost var before := tasks;
      var task := Create(sanitized.value.title, sanitized.value.description);
      CountAfterInsert(before, task.id, task, false);
      CountAfterInsert(before, task.id, task, true);
      var stats := ReadStats(1, fault);
      if stats.Failure? {
        return ServerError(stats.error);
      }
      resp := Response(201, TaskEnvelope(FormatTaskResponse(Some(task), stats.value)));
    }

    /**
     * GET /tasks. Store calls: 0 the listing, 1 and 2 the counts. The list is
     * the newest incomplete tasks, at most five.
     */
    method GetTasks(fault: Fault) returns (resp: Response)
      requires Valid()
      ensures Fails(fault, 0) || Fails(fault, 1) || Fails(fault, 2) ==> resp == ServerError(fault.message)
      ensures !Fails(fault, 0) && !Fails(fault, 1) && !Fails(fault, 2) ==>
        && resp.status == 200 && resp.body.TasksEnvelope?
        && IsNewestIncomplete(tasks, resp.body.list.tasks, ListLimit)
        && resp.body.list.stats == StatsOf(tasks)
    {
      if Fails(fault, 0) {
        return ServerError(fault.message);
      }
      var listed := NewestIncompleteBelow(tasks, nextId, ListLimit);
      NewestIncompleteMeetsPromise(tasks, nextId, clock, ListLimit);
      var stats := ReadStats(1, fault);
      if stats.Failure? {
        return ServerError(stats.error);
      }
      resp := Response(200, TasksEnvelope(FormatTasksResponse(listed, stats.value)));
    }

    /** GET /tasks/:id. Store call 0 is the lookup; the task is sent without an envelope. */
    method GetTask(id: string, fault: Fault) returns (resp: Response)
      requires Valid()
      ensures !IsValidId(JsString(id)) ==> resp == Response(400, ErrorBody(InvalidTaskId))
      ensures IsValidId(JsString(id)) && Fails(fault, 0) ==> resp == ServerError(fault.message)
      ensures IsValidId(JsString(id)) && !Fails(fault, 0) ==>
        && (IdOf(id) in tasks ==> resp == Response(200, TaskBody(tasks[IdOf(id)])))
        && (IdOf(id) !in tasks ==> resp == Response(404, ErrorBody(TaskNotFound)))
    {
      if !IsValidId(JsString(id)) {
        return Response(400, ErrorBody(InvalidTaskId));
      }
      if Fails(fault, 0) {
        return ServerError(fault.message);
      }
      var key := IdOf(id);
      var found := if key in tasks then Some(tasks[key]) else None;
      if found.Some? {
        resp := Response(200, TaskBody(found.value));
      } else {
        resp := Response(404, ErrorBody(TaskNotFound));
      }
    }

    /**
     * PUT /tasks/:id. Store calls: 0 the update, 1 and 2 the counts. The
     * title is not validated here, so a stored title may become blank.
     */
    method PutTask(id: string, patch: Patch, fault: Fault) returns (resp: Response)
      requires Valid()
      modifies this
      ensures Valid()
      ensures !IsValidId(JsString(id)) ==> resp == Response(400, ErrorBody(InvalidTaskId)) && unchanged(this)
      ensures IsValidId(JsString(id)) && Fails(fault, 0) ==> resp == ServerError(fault.message) && unchanged(this)
      ensures IsValidId(JsString(id)) && !Fails(fault, 0) && IdOf(id) !in old(tasks) ==>
        resp == Response(404, ErrorBody(TaskNotFound)) && unchanged(this)
      ensures IsValidId(JsString(id)) && !Fails(fault, 0) && IdOf(id) in old(tasks) ==>
        var updated := ApplyPatch(old(tasks)[IdOf(id)], patch, old(clock));
        && tasks == old(tasks)[IdOf(id) := updated]
        && nextId == old(nextId) && clock == old(clock) + 1
        && (Fails(fault, 1) || Fails(fault, 2) ==> resp == ServerError(fault.message))
        && (!Fails(fault, 1) && !Fails(fault, 2) ==>
              resp == Response(200, TaskEnvelope(TaskResponse(Some(updated), StatsOf(tasks)))))
      ensures resp.status == 200 ==>
        var before, after := old(tasks)[IdOf(id)], resp.body.envelope.task.value;
        && resp.body.envelope.stats.completed + Indicator(before.isCompleted)
             == Count(old(tasks), true) + Indicator(after.isCompleted)
        && resp.body.envelope.stats.todo + Indicator(!before.isCompleted)
             == Count(old(tasks), false) + Indicator(!after.isCompleted)
    {
      if !IsValidId(JsString(id)) {
        return Response(400, ErrorBody(InvalidTaskId));
      }
      if Fails(fault, 0) {
        return ServerError(fault.message);
      }
      var key := IdOf(id);
      ghost var before := tasks;
      var updated := Update(key, patch);
      if updated.Failure? {
        return CatchMutationError(updated.error);
      }
      CountAfterReplace(before, key, updated.value, true);
      CountAfterReplace(before, key, updated.value, false);
      var stats := ReadStats(1, fault);
      if stats.Failure? {
        return ServerError(stats.error);
      }
      resp := Response(200, TaskEnvelope(FormatTaskResponse(Some(updated.value), stats.value)));
    }

    /** DELETE /tasks/:id. Store calls: 0 the delete, 1 and 2 the counts. */
    method DeleteTask(id: string, fault: Fault) returns (resp: Response)
      requires Valid()
      modifies this
      ensures Valid()
      ensures !IsValidId(JsString(id)) ==> resp == Response(400, ErrorBody(InvalidTaskId)) && unchanged(this)
      ensures IsValidId(JsString(id)) && Fails(fault, 0) ==> resp == ServerError(fault.message) && unchanged(this)
      ensures IsValidId(JsString(id)) && !Fails(fault, 0) && IdOf(id) !in old(tasks) ==>
        resp == Response(404, ErrorBody(TaskNotFound)) && unchanged(this)
      ensures IsValidId(JsString(id)) && !Fails(fault, 0) && IdOf(id) in old(tasks) ==>
        && tasks == old(tasks) - {IdOf(id)}
        && nextId == old(nextId) && clock == old(clock)
        && (Fails(fault, 1) || Fails(fault, 2) ==> resp == ServerError(fault.message))
        && (!Fails(fault, 1) && !Fails(fault, 2) ==>
              resp == Response(200, TaskEnvelope(TaskResponse(Some(old(tasks)[IdOf(id)]), StatsOf(tasks)))))
      ensures resp.status == 200 ==>
        resp.body.envelope.stats.todo + resp.body.envelope.stats.completed + 1 == |old(tasks)|
    {
      if !IsValidId(JsString(id)) {
        return Response(400, ErrorBody(InvalidTaskId));
      }
      if Fails(fault, 0) {
        return ServerError(fault.message);
      }
      var key := IdOf(id);
      var deleted := Delete(key);
      if deleted.Failure? {
        return CatchMutationError(deleted.error);
      }
      var stats := ReadStats(1, fault);
      if stats.Failure? {
        return ServerError(stats.error);
      }
      resp := Response(200, TaskEnvelope(FormatTaskResponse(Some(deleted.value), stats.value)));
    }

    /** GET /stats. Store calls: 0 and 1 the counts. The body has no envelope. */
    method GetStats(fault: Fault) returns (resp: Response)
      requires Valid()
      ensures Fails(fault, 0) || Fails(fault, 1) ==> resp == ServerError(fault.message)
      ensures !Fails(fault, 0) && !Fails(fault, 1) ==>
        var completed := Count(tasks, true);
        resp == Response(200, StatsBody(Count(tasks, false), completed, |tasks|,
                                        CalculateCompletionPercentage(completed, |tasks|)))
      ensures resp.status == 200 ==> resp.body.completionPercentage <= 100
    {
      var stats := ReadStats(0, fault);
      if stats.Failure? {
        return ServerError(stats.error);
      }
      var total := CalculateTotalTasks(stats.value.todo, stats.value.completed);
      var percentage := CalculateCompletionPercentage(stats.value.completed, total);
      PercentageBounds(stats.value.completed, total);
      resp := Response(200, StatsBody(stats.value.todo, stats.value.completed, total, percentage));
    }
  }
}
