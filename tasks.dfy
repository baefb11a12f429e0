/**
 * The task record, the parsed request, the response envelope, and the
 * field-level rules the handler applies to a request before it touches the
 * tasks table.
 */
module Tasks {
  import opened Wrappers
  import opened PhpStrings

  /** The three values of the `status` column's ENUM. */
  datatype Status = Pending | InProgress | Completed

  function StatusName(st: Status): string {
    match st
    case Pending => "pending"
    case InProgress => "in_progress"
    case Completed => "completed"
  }

  /** `in_array($s, ['pending', 'in_progress', 'completed'])` on a string,
      answered with the status it names. */
  function ParseStatus(s: string): (r: Option<Status>)
    ensures r.Some? ==> StatusName(r.value) == s
    ensures r.None? ==> forall st: Status :: StatusName(st) != s
  {
    if s == "pending" then Some(Pending)
    else if s == "in_progress" then Some(InProgress)
    else if s == "completed" then Some(Completed)
    else None
  }

  /** One row of the tasks table; the two timestamps are readings of an
      abstract clock. */
  datatype Task = Task(
    id: int,
    title: string,
    description: string,
    status: Status,
    createdAt: int,
    updatedAt: int)

  /** The request payload after parsing: each field holds a string, or None
      for an explicit null. An absent key and a null value behave alike. */
  type Request = map<string, Option<string>>

  /** `$data[$k] ?? null`: the field's value when it is set. */
  function Field(req: Request, k: string): (v: Option<string>)
    ensures v.Some? <==> k in req && req[k].Some?
    ensures k in req ==> v == req[k]
    ensures k !in req ==> v == None
  {
    if k in req then req[k] else None
  }

  /** `!$id` where `$id = $input['id'] ?? 0`: true for a missing id, "" and "0". */
  predicate IsFalsyId(id: Option<string>) {
    id.None? || PhpEmpty(id.value)
  }

  /** The five values of the `action` field that the dispatcher knows. */
  datatype Action = GetAll | GetOne | Create | Update | Delete

  function ActionName(a: Action): string {
    match a
    case GetAll => "get_all"
    case GetOne => "get_one"
    case Create => "create"
    case Update => "update"
    case Delete => "delete"
  }

  /** The `case` of the dispatch `switch` that a string matches, if any. */
  function ParseAction(s: string): (r: Option<Action>)
    ensures r.Some? ==> ActionName(r.value) == s
    ensures r.None? ==> forall a: Action :: ActionName(a) != s
  {
    if s == "get_all" then Some(GetAll)
    else if s == "get_one" then Some(GetOne)
    else if s == "create" then Some(Create)
    else if s == "update" then Some(Update)
    else if s == "delete" then Some(Delete)
    else None
  }

  /** The JSON body: an error object, or a success object carrying a task
      list, one task, or a message with an optional task. */
  datatype Body =
    | Error(error: string)
    | TaskList(tasks: seq<Task>)
    | OneTask(task: Task)
    | Message(message: string, payload: Option<Task>)

  datatype Response = Response(code: int, body: Body)

  const ActionMissing: string := "Не указано действие или действие не поддерживается"
  const IdMissing: string := "Не указан ID задачи"
  const NotFound: string := "Задача не найдена"
  const TitleEmpty: string := "Заголовок не может быть пустым"
  const NothingToUpdate: string := "Нет данных для обновления"
  const CreatedMessage: string := "Задача создана"
  const UpdatedMessage: string := "Задача обновлена"
  const DeletedMessage: string := "Задача удалена"

  /** The status a create stores: the supplied one when it names a status,
      otherwise `pending`. */
  function CreateStatus(raw: Option<string>): (st: Status)
    ensures raw == Some(StatusName(st)) || (st == Pending && forall s: Status :: raw != Some(StatusName(s)))
  {
    match ParseStatus(raw.GetOr(""))
    case Some(s) => s
    case None => Pending
  }

  /** The status an update applies: only a supplied value naming a status;
      anything else leaves the column alone. */
  function UpdateStatus(raw: Option<string>): (st: Option<Status>)
    ensures st.Some? <==> exists s: Status :: raw == Some(StatusName(s))
    ensures st.Some? ==> raw == Some(StatusName(st.value))
  {
    if raw.Some? then ParseStatus(raw.value) else None
  }

  /** The `SET` list of the UPDATE statement: one slot per column that an
      update may set, filled when its `column = ?` entry has been added. */
  datatype SetList = SetList(title: Option<string>, description: Option<string>, status: Option<Status>) {

    predicate IsEmpty() {
      title.None? && description.None? && status.None?
    }

    /** `UPDATE tasks SET <this> WHERE id = ?` on the row, apart from the
        refreshed `updated_at`: each filled column takes its value, every
        other column keeps its own. */
    function ApplyTo(t: Task): Task {
      t.(title := title.GetOr(t.title),
         description := description.GetOr(t.description),
         status := status.GetOr(t.status))
    }
  }

  /** An update's present title that trims to "" or "0". */
  predicate UpdateTitleRejected(req: Request) {
    Field(req, "title").Some? && PhpEmpty(Trim(Field(req, "title").value))
  }

  /** An update request that names nothing the UPDATE can set: no title,
      no description, and no status that names one. */
  predicate NothingApplicable(req: Request) {
    Field(req, "title").None? && Field(req, "description").None?
    && UpdateStatus(Field(req, "status")).None?
  }

  /** The assignment-collecting part of `updateTask`, field by field in
      the order title, description, status. It stops with `titleRejected`
      when a present title trims to "" or "0"; otherwise the title and
      description slots hold the trimmed values of exactly the present
      fields, the status slot a supplied value exactly when it names a
      status, and the list is empty exactly when nothing is applicable. */
  method CollectAssignments(req: Request) returns (titleRejected: bool, updates: SetList)
    ensures titleRejected <==> UpdateTitleRejected(req)
    ensures !titleRejected ==> updates.title.Some? == Field(req, "title").Some?
    ensures !titleRejected && updates.title.Some? ==>
      updates.title.value == Trim(Field(req, "title").value) && CleanTitle(updates.title.value)
    ensures !titleRejected ==> updates.description.Some? == Field(req, "description").Some?
    ensures !titleRejected && updates.description.Some? ==>
      updates.description.value == Trim(Field(req, "description").value)
    ensures !titleRejected ==> updates.status == UpdateStatus(Field(req, "status"))
    ensures !titleRejected ==> (updates.IsEmpty() <==> NothingApplicable(req))
  {
    updates := SetList(None, None, None);
    if Field(req, "title").Some? {
      var title := Trim(Field(req, "title").value);
      if PhpEmpty(title) {
        return true, updates;
      }
      AcceptedTitleIsClean(Field(req, "title").value);
      updates := updates.(title := Some(title));
    }
    if Field(req, "description").Some? {
      updates := updates.(description := Some(Trim(Field(req, "description").value)));
    }
    var status := Field(req, "status");
    if status.Some? && ParseStatus(status.value).Some? {
      updates := updates.(status := ParseStatus(status.value));
    }
    titleRejected := false;
  }

  /** The row an accepted update leaves behind: the present title and
      description trimmed, the status only when it names one, and
      `updated_at` set to `t`; `id` and `created_at` are kept. */
  function Patched(before: Task, req: Request, t: int): Task {
    var title := Field(req, "title");
    var description := Field(req, "description");
    var status := UpdateStatus(Field(req, "status"));
    Task(before.id,
         if title.Some? then Trim(title.value) else before.title,
         if description.Some? then Trim(description.value) else before.description,
         if status.Some? then status.value else before.status,
         before.createdAt, t)
  }

  /** Running the SET list that `CollectAssignments` returns for a request
      it does not reject, with `updated_at` refreshed to `t`, leaves exactly
      the patched row: every column the list names takes its new value and
      every other column, `id` and `created_at` among them, keeps its own. */
  lemma CollectedListPatches(req: Request, updates: SetList, row: Task, t: int)
    requires updates.title.Some? == Field(req, "title").Some?
    requires updates.title.Some? ==> updates.title.value == Trim(Field(req, "title").value)
    requires updates.description.Some? == Field(req, "description").Some?
    requires updates.description.Some? ==> updates.description.value == Trim(Field(req, "description").value)
    requires updates.status == UpdateStatus(Field(req, "status"))
    ensures updates.ApplyTo(row).(updatedAt := t) == Patched(row, req, t)
    ensures Patched(row, req, t).id == row.id && Patched(row, req, t).createdAt == row.createdAt
  {
  }

  /** The stored form of a row under key `k` at clock reading `now`: its id
      is its key, its title clean, its description without strippable ends, and its
      timestamps ordered and not in the future. */
  ghost predicate StoredOk(t: Task, k: int, now: int) {
    && t.id == k
    && CleanTitle(t.title)
    && IsTrimmed(t.description)
    && t.createdAt <= t.updatedAt <= now
  }
}
