/**
 * The request handler: the action dispatcher and the five operations on the
 * tasks table. The table is held in memory; `nextId` plays the part of the
 * AUTO_INCREMENT counter and `now` the last reading of the clock that fills
 * `created_at` and `updated_at`. Every error path returns at once and leaves
 * the table as it was, as the handler's `exit` after each response does.
 */
module TaskApi {
  import opened Wrappers
  import opened PhpStrings
  import opened Decimal
  import opened Tasks

  /** The rows of `m` whose ids lie between 1 and `k`, largest id first. */
  function NewestFirst(m: map<int, Task>, k: int): (ts: seq<Task>)
    requires forall x | x in m :: m[x].id == x
    decreases k
    ensures forall i | 0 <= i < |ts| :: ts[i].id in m && m[ts[i].id] == ts[i] && 1 <= ts[i].id <= k
    ensures forall i, j | 0 <= i < j < |ts| :: ts[i].id > ts[j].id
    ensures forall x | x in m && 1 <= x <= k :: m[x] in ts
  {
    if k < 1 then []
    else if k in m then [m[k]] + NewestFirst(m, k - 1)
    else NewestFirst(m, k - 1)
  }

  /** The table invariant on plain values: every key is an id already handed
      out, every row is in its stored form, and a row with a larger id was
      not created earlier. */
  ghost predicate TableOk(tasks: map<int, Task>, nextId: int, now: int) {
    && 1 <= nextId
    && (forall k | k in tasks :: 1 <= k < nextId && StoredOk(tasks[k], k, now))
    && (forall a, b | a in tasks && b in tasks && a < b :: tasks[a].createdAt <= tasks[b].createdAt)
  }

  /** Inserting a stored-form row under the next id, created at a clock
      reading no earlier than `now`, keeps the invariant. */
  lemma InsertKeepsOk(tasks: map<int, Task>, nextId: int, now: int, row: Task, t: int)
    requires TableOk(tasks, nextId, now) && now <= t
    requires StoredOk(row, nextId, t) && row.createdAt == t
    ensures nextId !in tasks
    ensures TableOk(tasks[nextId := row], nextId + 1, t)
  {
    var m := tasks[nextId := row];
    forall k | k in m ensures 1 <= k < nextId + 1 && StoredOk(m[k], k, t) {
      if k != nextId { assert StoredOk(tasks[k], k, now); }
    }
  }

  /** Replacing a row by one with the same id and creation time, in stored
      form at a reading no earlier than `now`, keeps the invariant. */
  lemma ReplaceKeepsOk(tasks: map<int, Task>, nextId: int, now: int, k: int, row: Task, t: int)
    requires TableOk(tasks, nextId, now) && now <= t && k in tasks
    requires StoredOk(row, k, t) && row.createdAt == tasks[k].createdAt
    ensures TableOk(tasks[k := row], nextId, t)
  {
    var m := tasks[k := row];
    forall j | j in m ensures 1 <= j < nextId && StoredOk(m[j], j, t) {
      if j != k { assert StoredOk(tasks[j], j, now); }
    }
  }

  /** Removing a row keeps the invariant. */
  lemma RemoveKeepsOk(tasks: map<int, Task>, nextId: int, now: int, k: int)
    requires TableOk(tasks, nextId, now)
    ensures TableOk(tasks - {k}, nextId, now)
  {
  }

  class TaskTable {
    var tasks: map<int, Task>
    var nextId: int
    var now: int

    ghost predicate Valid()
      reads this
    {
      TableOk(tasks, nextId, now)
    }

    /** An existing, empty tasks table whose clock reads `start`. */
    constructor (start: int)
      ensures Valid()
      ensures tasks == map[] && nextId == 1 && now == start
    {
      tasks := map[];
      nextId := 1;
      now := start;
    }

    /** The row that `WHERE id = ?` selects for a string id. */
    function Find(id: string): (k: Option<int>)
      reads this
      ensures k.Some? ==> k.value in tasks && ParseDecimal(id) == Some(k.value)
      ensures k.None? ==> ParseDecimal(id).None? || ParseDecimal(id).value !in tasks
    {
      match ParseDecimal(id)
      case Some(n) => if n in tasks then Some(n) else None
      case None => None
    }

    /** `getAllTasks`: every stored row exactly once, newest `created_at`
        first, with code 200. */
    function GetAllTasks(): (r: Response)
      requires Valid()
      reads this
      ensures r.code == 200 && r.body.TaskList?
      ensures forall i | 0 <= i < |r.body.tasks| ::
        r.body.tasks[i].id in tasks && tasks[r.body.tasks[i].id] == r.body.tasks[i]
      ensures forall k | k in tasks :: tasks[k] in r.body.tasks
      ensures forall i, j | 0 <= i < j < |r.body.tasks| :: r.body.tasks[i].id != r.body.tasks[j].id
      ensures forall i, j | 0 <= i < j < |r.body.tasks| ::
        r.body.tasks[i].createdAt >= r.body.tasks[j].createdAt
    {
      Response(200, TaskList(NewestFirst(tasks, nextId - 1)))
    }

    /** `getTask`: a falsy id is a 400 before any lookup, an id that selects
        no row a 404, otherwise the row with code 200. */
    function GetTask(id: Option<string>): (r: Response)
      reads this
      ensures IsFalsyId(id) ==> r == Response(400, Error(IdMissing))
      ensures !IsFalsyId(id) && Find(id.value).None? ==> r == Response(404, Error(NotFound))
      ensures !IsFalsyId(id) && Find(id.value).Some? ==>
        r == Response(200, OneTask(tasks[Find(id.value).value]))
    {
      if IsFalsyId(id) then Response(400, Error(IdMissing))
      else match Find(id.value)
        case None => Response(404, Error(NotFound))
        case Some(k) => Response(200, OneTask(tasks[k]))
    }

    /** The outcome of `createTask`: a request whose title trims to "" or
        "0" is a 400 that inserts nothing; any other inserts one row under
        the next id and answers 201 with it. */
    twostate predicate Created(req: Request, t: int, resp: Response)
      reads this
    {
      var title := Field(req, "title").GetOr("");
      if !TitleAccepted(title) then
        && resp == Response(400, Error(TitleEmpty))
        && tasks == old(tasks) && nextId == old(nextId) && now == old(now)
      else
        var row := Task(old(nextId), Trim(title), Trim(Field(req, "description").GetOr("")),
                        CreateStatus(Field(req, "status")), t, t);
        && old(nextId) !in old(tasks)
        && tasks == old(tasks)[old(nextId) := row]
        && nextId == old(nextId) + 1 && now == t
        && resp == Response(201, Message(CreatedMessage, Some(row)))
    }

    /** The outcome of `updateTask`: a falsy id is a 400, an unknown id a
        404 (before any field is looked at), a present title that trims to
        "" or "0" a 400, and no applicable field a 400, each with the table
        unchanged; otherwise exactly the selected row is patched and returned
        with code 200. */
    twostate predicate Updated(id: Option<string>, req: Request, t: int, resp: Response)
      reads this
    {
      var same := tasks == old(tasks) && nextId == old(nextId) && now == old(now);
      if IsFalsyId(id) then
        resp == Response(400, Error(IdMissing)) && same
      else if old(Find(id.value)).None? then
        resp == Response(404, Error(NotFound)) && same
      else if UpdateTitleRejected(req) then
        resp == Response(400, Error(TitleEmpty)) && same
      else if NothingApplicable(req) then
        resp == Response(400, Error(NothingToUpdate)) && same
      else
        var k := old(Find(id.value)).value;
        var row := Patched(old(tasks)[k], req, t);
        && tasks == old(tasks)[k := row]
        && nextId == old(nextId) && now == t
        && resp == Response(200, Message(UpdatedMessage, Some(row)))
    }

    /** The outcome of `deleteTask`: a falsy id is a 400 and an unknown id a
        404, both with the table unchanged; otherwise exactly the selected
        row is removed and the answer is 200 with a message and no task. */
    twostate predicate Deleted(id: Option<string>, resp: Response)
      reads this
    {
      var same := tasks == old(tasks) && nextId == old(nextId) && now == old(now);
      if IsFalsyId(id) then
        resp == Response(400, Error(IdMissing)) && same
      else if old(Find(id.value)).None? then
        resp == Response(404, Error(NotFound)) && same
      else
        && tasks == old(tasks) - {old(Find(id.value)).value}
        && nextId == old(nextId) && now == old(now)
        && resp == Response(200, Message(DeletedMessage, None))
    }

    /** `createTask`: validates the title, inserts the row under the next
        id, and answers with the row it selects by the inserted id. */
    method CreateTask(req: Request, t: int) returns (resp: Response)
      requires Valid() && now <= t
      modifies this
      ensures Valid()
      ensures Created(req, t, resp)
    {
      if PhpEmpty(Trim(Field(req, "title").GetOr(""))) {
        return Response(400, Error(TitleEmpty));
      }
      var title := Trim(Field(req, "title").value);
      var description := Trim(Field(req, "description").GetOr(""));
      var status := CreateStatus(Field(req, "status"));
      AcceptedTitleIsClean(Field(req, "title").value);
      var id := nextId;
      var row := Task(id, title, description, status, t, t);
      InsertKeepsOk(tasks, nextId, now, row, t);
      tasks := tasks[id := row];
      nextId := nextId + 1;
      now := t;
      // The inserted id comes back as its decimal string and is read back by it.
      ParseShow(id);
      var inserted := Find(Show(id));
      assert inserted == Some(id);
      resp := Response(201, Message(CreatedMessage, Some(tasks[inserted.value])));
    }

    /** `updateTask`: checks the id, then the row, then collects the
        assignments field by field before running them as one statement. */
    method UpdateTask(id: Option<string>, req: Request, t: int) returns (resp: Response)
      requires Valid() && now <= t
      modifies this
      ensures Valid()
      ensures Updated(id, req, t, resp)
    {
      if IsFalsyId(id) {
        return Response(400, Error(IdMissing));
      }
      var found := Find(id.value);
      if found.None? {
        return Response(404, Error(NotFound));
      }
      var k := found.value;
      var titleRejected, updates := CollectAssignments(req);
      if titleRejected {
        return Response(400, Error(TitleEmpty));
      }
      if updates.IsEmpty() {
        return Response(400, Error(NothingToUpdate));
      }
      var row := updates.ApplyTo(tasks[k]).(updatedAt := t);
      assert StoredOk(tasks[k], k, now);
      CollectedListPatches(req, updates, tasks[k], t);
      ReplaceKeepsOk(tasks, nextId, now, k, row, t);
      tasks := tasks[k := row];
      now := t;
      resp := Response(200, Message(UpdatedMessage, Some(row)));
    }

    /** `deleteTask`. */
    method DeleteTask(id: Option<string>) returns (resp: Response)
      requires Valid()
      modifies this
      ensures Valid()
      ensures Deleted(id, resp)
    {
      if IsFalsyId(id) {
        return Response(400, Error(IdMissing));
      }
      var found := Find(id.value);
      if found.None? {
        return Response(404, Error(NotFound));
      }
      RemoveKeepsOk(tasks, nextId, now, found.value);
      tasks := tasks - {found.value};
      resp := Response(200, Message(DeletedMessage, None));
    }

    /** The dispatch `switch` on `action` (missing means ""): each known
        action runs its operation, anything else is a 400 that changes
        nothing. Every error answer leaves the table as it was. */
    method Handle(req: Request, t: int) returns (resp: Response)
      requires Valid() && now <= t
      modifies this
      ensures Valid()
      ensures resp.code in {200, 201, 400, 404}
      ensures resp.code in {400, 404} ==>
        resp.body.Error? && tasks == old(tasks) && nextId == old(nextId) && now == old(now)
      ensures resp.code == 201 <==> resp.body.Message? && resp.body.message == CreatedMessage
      ensures match ParseAction(Field(req, "action").GetOr(""))
        case None =>
          resp == Response(400, Error(ActionMissing)) && tasks == old(tasks) && unchanged(this)
        case Some(GetAll) => resp == old(GetAllTasks()) && unchanged(this)
        case Some(GetOne) => resp == old(GetTask(Field(req, "id"))) && unchanged(this)
        case Some(Create) => Created(req, t, resp)
        case Some(Update) => Updated(Field(req, "id"), req, t, resp)
        case Some(Delete) => Deleted(Field(req, "id"), resp)
    {
      match ParseAction(Field(req, "action").GetOr(""))
      case None =>
        resp := Response(400, Error(ActionMissing));
      case Some(GetAll) =>
        resp := GetAllTasks();
      case Some(GetOne) =>
        resp := GetTask(Field(req, "id"));
      case Some(Create) =>
        resp := CreateTask(req, t);
      case Some(Update) =>
        resp := UpdateTask(Field(req, "id"), req, t);
      case Some(Delete) =>
        resp := DeleteTask(Field(req, "id"));
    }
  }
}
