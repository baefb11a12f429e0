/**
 * Sequences of requests sent to the handler, and what a client observes
 * across them: a created task can be read back by the id the response
 * carries, a deleted one is gone, an update is what a later read returns,
 * and the listing shows the newest task first.
 */
module Scenarios {
  import opened Wrappers
  import opened PhpStrings
  import opened Decimal
  import opened Tasks
  import opened TaskApi

  /** The request `action=<action>&id=<id>` with the id written in decimal. */
  function ById(action: string, id: nat): Request {
    map["action" := Some(action), "id" := Some(Show(id))]
  }

  /** A positive id written in decimal is a truthy id that selects row `k`
      exactly when `k` is a key of the table. */
  lemma ShownIdSelects(table: TaskTable, k: nat)
    requires 1 <= k
    ensures !IsFalsyId(Some(Show(k)))
    ensures table.Find(Show(k)) == (if k in table.tasks then Some(k) else None)
  {
    ParseShow(k);
  }

  /** `create` followed by `get_one` with the id from the response: the read
      returns exactly the row the create answered with. */
  method CreateThenGetOne(table: TaskTable, fields: Request, t: int) returns (created: Response, got: Response)
    requires table.Valid() && table.now <= t
    modifies table
    ensures table.Valid()
    ensures created.code == 201 <==> TitleAccepted(Field(fields, "title").GetOr(""))
    ensures created.code == 201 ==>
      && created.body.Message? && created.body.payload.Some?
      && created.body.payload.value.id == old(table.nextId)
      && got == Response(200, OneTask(created.body.payload.value))
  {
    var req := fields["action" := Some("create")];
    assert Field(req, "title") == Field(fields, "title");
    assert Field(req, "description") == Field(fields, "description");
    assert Field(req, "status") == Field(fields, "status");
    created := table.Handle(req, t);
    got := created;
    if created.code == 201 {
      var id := created.body.payload.value.id;
      ShownIdSelects(table, id);
      got := table.Handle(ById("get_one", id), t);
    }
  }

  /** `delete` of an existing row, then `get_one` and `delete` of the same
      id: the first answer is 200, the other two are 404, and only that row
      has left the table. */
  method DeleteTwice(table: TaskTable, k: nat, t: int) returns (first: Response, read: Response, second: Response)
    requires table.Valid() && table.now <= t && k in table.tasks
    modifies table
    ensures table.Valid()
    ensures first == Response(200, Message(DeletedMessage, None))
    ensures read == Response(404, Error(NotFound))
    ensures second == Response(404, Error(NotFound))
    ensures table.tasks == old(table.tasks) - {k} && table.nextId == old(table.nextId)
  {
    assert 1 <= k;
    ShownIdSelects(table, k);
    first := table.DeleteTask(Some(Show(k)));
    ShownIdSelects(table, k);
    read := table.GetTask(Some(Show(k)));
    second := table.DeleteTask(Some(Show(k)));
  }

  /** An accepted update followed by a read of the same id: the read
      returns the row the update answered with, which kept its id and
      creation time. */
  method UpdateThenGetOne(table: TaskTable, k: nat, fields: Request, t: int) returns (updated: Response, got: Response)
    requires table.Valid() && table.now <= t && k in table.tasks
    requires !UpdateTitleRejected(fields) && !NothingApplicable(fields)
    modifies table
    ensures table.Valid()
    ensures updated.code == 200 && updated.body.Message? && updated.body.payload.Some?
    ensures got == Response(200, OneTask(updated.body.payload.value))
    ensures updated.body.payload.value.id == k
    ensures updated.body.payload.value.createdAt == old(table.tasks[k].createdAt)
    ensures updated.body.payload.value.updatedAt == t
  {
    assert 1 <= k;
    ShownIdSelects(table, k);
    updated := table.UpdateTask(Some(Show(k)), fields, t);
    ShownIdSelects(table, k);
    got := table.GetTask(Some(Show(k)));
  }

  /** An update of an existing id whose only other field is a status
      outside the enumeration is refused as having nothing to update, and
      the table stays as it was. */
  method UpdateOnlyUnknownStatus(table: TaskTable, k: nat, t: int) returns (resp: Response)
    requires table.Valid() && table.now <= t && k in table.tasks
    modifies table
    ensures resp == Response(400, Error(NothingToUpdate))
    ensures table.tasks == old(table.tasks) && table.nextId == old(table.nextId) && table.now == old(table.now)
  {
    assert 1 <= k;
    ShownIdSelects(table, k);
    resp := table.UpdateTask(Some(Show(k)), map["status" := Some("archived")], t);
  }

  /** An update of an id that selects no row is a 404 even when its title
      would be refused: the row is looked up before any field is checked. */
  method UnknownIdBeforeTitle(table: TaskTable, k: nat, t: int) returns (resp: Response)
    requires table.Valid() && table.now <= t && 1 <= k && k !in table.tasks
    modifies table
    ensures resp == Response(404, Error(NotFound))
    ensures table.tasks == old(table.tasks) && table.nextId == old(table.nextId) && table.now == old(table.now)
  {
    ShownIdSelects(table, k);
    resp := table.UpdateTask(Some(Show(k)), map["title" := Some("  ")], t);
  }

  /** On a new table, a title of blanks around "0" is refused like an empty
      one, since `empty` treats the trimmed "0" as empty. */
  method ZeroTitleRefused() returns (resp: Response)
    ensures resp == Response(400, Error(TitleEmpty))
  {
    var table := new TaskTable(0);
    var title := " 0\n";
    TrimUnique(title, 1, 2);
    resp := table.Handle(map["action" := Some("create"), "title" := Some(title)], 1);
  }

  /** On a new table, a create with a padded title and no other field
      stores the trimmed title, an empty description and `pending`, under
      id 1, stamped with the clock reading. */
  method CreateDefaults() returns (resp: Response)
    ensures resp == Response(201, Message(CreatedMessage, Some(Task(1, "Buy milk", "", Pending, 5, 5))))
  {
    var table := new TaskTable(0);
    var title := "  Buy milk\t";
    TrimUnique(title, 2, 10);
    assert title[2..10] == "Buy milk";
    assert Trim("") == "";
    resp := table.CreateTask(map["title" := Some(title)], 5);
  }

  /** The listing of a table holding ids 1 and 2 is row 2, then row 1. */
  lemma TwoRowsListed(a: Task, b: Task)
    requires a.id == 1 && b.id == 2
    ensures NewestFirst(map[1 := a, 2 := b], 2) == [b, a]
  {
    var m := map[1 := a, 2 := b];
    assert NewestFirst(m, 0) == [];
    assert NewestFirst(m, 1) == [a];
  }

  /** On a new table, two creates and then `get_all`: the listing holds
      both rows, the later one first. */
  method ListNewestFirst() returns (listing: Response)
    ensures listing == Response(200, TaskList([Task(2, "second", "", Pending, 2, 2), Task(1, "first", "", Pending, 1, 1)]))
  {
    var table := new TaskTable(0);
    CleanTitleTrimmed("first");
    CleanTitleTrimmed("second");
    assert Trim("") == "";
    var a := table.CreateTask(map["title" := Some("first")], 1);
    var b := table.CreateTask(map["title" := Some("second")], 2);
    var rowA := Task(1, "first", "", Pending, 1, 1);
    var rowB := Task(2, "second", "", Pending, 2, 2);
    assert table.tasks == map[1 := rowA, 2 := rowB] && table.nextId == 3;
    TwoRowsListed(rowA, rowB);
    listing := table.GetAllTasks();
  }
}
