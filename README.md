# Task API request handler

`api.php` is a small REST service for a to-do list. It reads one request (a set
of named fields) and looks at its `action` field. It then runs one of five
operations on a MySQL table `tasks`:

- `get_all` lists every task, newest first
- `get_one` reads a task by id
- `create` inserts a task
- `update` changes some fields of a task
- `delete` removes a task

It answers with a JSON object and an HTTP status code. Every answer ends the
script at once, so each request yields exactly one response and nothing runs
after it.

This project models that handler as a state machine over an in-memory table:

- `TaskApi.TaskTable` holds the rows as a `map<int, Task>`.
- `nextId` stands in for the AUTO_INCREMENT counter.
- `now` is the last reading of an abstract clock. It stands in for
  `CURRENT_TIMESTAMP` and never goes backwards: every request brings a
  reading `t` with `now <= t`.
- The response is a value, a code plus a body. Error paths return it
  immediately.
- The class invariant `Valid()` says that every stored row:
  - is under its own id, below `nextId`
  - has a status from the enumeration
  - has a title that `trim` leaves alone and that `empty()` does not reject
  - has a trimmed description
  - has `created_at <= updated_at <= now`

  It also says that a larger id was never created earlier.

PHP's own semantics are copied literally:

- `trim` strips its default list: space, tab, LF, CR, NUL and vertical tab.
- `empty()` holds of `""` and `"0"` only.
- `!$id` holds of an absent id, `""` and `"0"`.
- `isset` and `??` treat an absent field and a null one alike, so a request
  is a `map<string, Option<string>>`.

Files, one module each:

- `wrappers.dfy`: `Option`
- `php_strings.dfy`: `trim`, `empty`, and the proof that `trim` is the
  unique strip of both ends
- `decimal.dfy`: how a string id selects an integer key, and how an id is
  written back
- `tasks.dfy`: records, the request and response, the status and action
  rules, and the collection of the UPDATE's SET list
- `task_table.dfy`: the table class, its five operations and the dispatcher
- `scenarios.dfy`: request sequences and what a client observes across them

A status outside the enumeration is never an error by itself. An update
ignores it when some other field applies. An update whose only field is such
a status has nothing to set, so it gets 400, "nothing to update"
(`api.php:158-165`; see `Scenarios.UpdateOnlyUnknownStatus`).

## Model

| member | source | states |
|---|---|---|
| PhpStrings.Trim | api.php:95-100 | `trim` never lengthens its input and leaves neither end strippable |
| PhpStrings.TrimLeftShape | api.php:95-100 | the left strip keeps a suffix, drops only strippable characters, and stops at a non-strippable one |
| PhpStrings.TrimRightShape | api.php:95-100 | the right strip keeps a prefix, drops only strippable characters, and stops at a non-strippable one |
| PhpStrings.TrimShape | api.php:95-100 | what `trim` keeps is an infix of the input with only strippable characters around it |
| PhpStrings.TrimUnique | api.php:95-100 | any infix with clean ends and only strippable characters around it is the result of `trim`; with `TrimShape` this defines `trim` completely |
| PhpStrings.TrimOfTrimmed | api.php:145 | a string with clean ends is its own trim |
| PhpStrings.TrimIdempotent | api.php:145 | trimming twice equals trimming once |
| PhpStrings.TrimLeftAll | api.php:95 | a string of strippable characters only trims to nothing |
| PhpStrings.TrimLeftStops | api.php:95 | the left strip stops exactly at the first non-strippable character |
| PhpStrings.TrimRightStops | api.php:95 | the right strip stops exactly at the last non-strippable character |
| PhpStrings.CleanTitleTrimmed | api.php:144-148 | a stored-form title is a fixed point of `trim` and is neither "" nor "0" |
| PhpStrings.AcceptedTitleIsClean | api.php:95-97 | a raw title passes the `empty(trim(...))` check exactly when its trimmed form is a stored-form title |
| Decimal.ParseDecimal | api.php:78-80 | a string id selects a key exactly when it is a non-empty run of decimal digits |
| Decimal.Show | api.php:109 | the written form of an id is a non-empty run of digits with no leading zero unless the id is 0 |
| Decimal.ParseShow | api.php:109-114 | reading back the written form of an id gives the same id, so the id `lastInsertId` hands back selects the inserted row |
| Decimal.ZeroPrefixValue | api.php:78-79 | a leading zero adds nothing to the value of a digit string |
| Decimal.LeadingZeroSelectsSame | api.php:78-79 | an id with a leading zero selects the same key as the id without it |
| Tasks.ParseStatus | api.php:101 | a string names a status exactly when it is one of the three enumerated names, and then it names that one |
| Tasks.CreateStatus | api.php:101-103 | create stores the supplied status when it is exactly one of the three names, and `pending` in every other case |
| Tasks.UpdateStatus | api.php:158-161 | update applies a status exactly when one is supplied and names an enumerated value, and then applies that one |
| Tasks.Field | api.php:32 | a field has a value exactly when it is present and not null; a present field reads as the value supplied, and an absent one as null |
| Tasks.ParseAction | api.php:35-55 | an action string selects a `case` of the switch exactly when it equals that case's label |
| Tasks.CollectedListPatches | api.php:168-173 | running the SET list collected for an accepted request, with `updated_at` refreshed, gives exactly the patched row: each present column takes its new value and every other column, `id` and `created_at` among them, keeps its own |
| Tasks.CollectAssignments | api.php:141-165 | it stops with a rejection exactly when a present title trims to "" or "0". Otherwise the title and description entries are the trimmed values of exactly the present fields, and the title entry is in stored form. The status entry is present exactly when the status names an enumerated value. The list is empty exactly when no field applies |
| TaskApi.NewestFirst | api.php:63 | the listing holds rows of the table only, strictly by decreasing id, and every row in the id range |
| TaskApi.InsertKeepsOk | api.php:106-107 | inserting a stored-form row under the next id, at a clock reading not earlier than the last, keeps the table invariant |
| TaskApi.ReplaceKeepsOk | api.php:171-173 | replacing a row by a stored-form row with the same id and creation time keeps the table invariant |
| TaskApi.RemoveKeepsOk | api.php:204-205 | deleting a row keeps the table invariant |
| TaskApi.TaskTable.constructor | api.php:226-233 | the table starts empty, with the counter at 1 |
| TaskApi.TaskTable.Find | api.php:78-80 | `WHERE id = ?` selects a row exactly when the id reads as a key that is in the table, and then selects that key |
| TaskApi.TaskTable.GetAllTasks | api.php:61-67 | code 200. The listing holds every stored row exactly once and only stored rows, with `created_at` non-increasing |
| TaskApi.TaskTable.GetTask | api.php:72-87 | a falsy id gives 400 before any lookup. An id that selects no row gives 404. Otherwise code 200 with the selected row |
| TaskApi.TaskTable.CreateTask | api.php:92-121 | a title that is missing or trims to "" or "0" gives 400 and leaves the table unchanged. Otherwise it inserts exactly one row under a fresh id, reads it back by that id in decimal, and returns 201 with it. That row has the trimmed title, the trimmed description (or ""), the supplied status when enumerated (else `pending`) and both timestamps at the clock reading. No other row changes. The invariant is kept |
| TaskApi.TaskTable.UpdateTask | api.php:126-185 | in order: a falsy id gives 400, an unknown id 404, a present title trimming to "" or "0" 400, and no applicable field 400, each with the table unchanged. Otherwise only the selected row changes. Its present title and description are trimmed, its status is set only when enumerated, `id` and `created_at` are kept and `updated_at` is refreshed. The answer is 200 with that row. The invariant is kept |
| TaskApi.TaskTable.DeleteTask | api.php:190-211 | a falsy id gives 400 and an unknown id 404, with the table unchanged. Otherwise exactly the selected row is removed and the answer is 200 with a message and no task. The invariant is kept |
| TaskApi.TaskTable.Handle | api.php:32-56 | every answer is 200, 201, 400 or 404. Every 400 or 404 carries an error and leaves the table unchanged. 201 means exactly a created task. A missing or unknown action gives 400 and changes nothing. `get_all` and `get_one` change nothing. Every other action has the outcome of its operation |
| Scenarios.ShownIdSelects | api.php:74 | a positive id in decimal is truthy and selects its row exactly when the row exists |
| Scenarios.CreateThenGetOne | api.php:109-120 | a created task can be read back by the id in the create response, and the read returns the same row |
| Scenarios.DeleteTwice | api.php:196-210 | deleting an existing row succeeds, and a later read and a repeated delete both give 404. Only that row leaves the table |
| Scenarios.UpdateThenGetOne | api.php:175-184 | after an accepted update, a read of the id returns the row the update answered with. It has the same id and creation time, and `updated_at` is the clock reading |
| Scenarios.UpdateOnlyUnknownStatus | api.php:158-165 | an update with only a non-enumerated status gives 400 "nothing to update" and leaves the table unchanged |
| Scenarios.UnknownIdBeforeTitle | api.php:133-148 | an update of a missing id with a blank title gives 404, not 400 |
| Scenarios.ZeroTitleRefused | api.php:95-97 | a create whose title trims to "0" gives 400, like an empty title |
| Scenarios.CreateDefaults | api.php:99-103 | a create with a padded title and nothing else stores the trimmed title, "" and `pending` under id 1 |
| Scenarios.TwoRowsListed | api.php:63 | a table holding ids 1 and 2 lists row 2 first |
| Scenarios.ListNewestFirst | api.php:61-67 | after two creates, the listing shows the later task first, then the earlier one |

## Left out

- The PDO connection and its 500 answer (`api.php:14-20`): I/O against a database driver.
- Response headers, `http_response_code` and JSON encoding (`api.php:23`,
  `218-219`): transport. A response is a code and a body value.
- Reading `$_POST` or decoding a JSON body (`api.php:26-29`): transport. The
  model takes the already-parsed map of fields.
- Non-string field values (JSON numbers, booleans, arrays): every field value
  is a string or null. So `in_array`'s loose comparison of non-strings
  (`api.php:101`, `158`) and `!$id` on the number `0` are not modelled.
- `createTableIfNotExists` (`api.php:224-239`): SQL DDL. It is also never
  reached, since every branch of the switch ends the script first. The model
  starts from an existing table.
- TaskApi.TaskTable.Find: MySQL compares a string id with the integer
  column by a lenient conversion. Under it, " 1", "1abc" and "1.0" would
  all select row 1. The model selects a row only for a string of decimal
  digits (leading zeros allowed), and every other string selects none.
- TaskApi.TaskTable.GetAllTasks: `ORDER BY created_at DESC` fixes no order
  between rows created at the same reading. The model lists by decreasing
  id, which is one of the allowed orders. Only the non-increasing
  `created_at` is promised.
- TaskApi.TaskTable.UpdateTask: `ON UPDATE CURRENT_TIMESTAMP` skips the
  refresh when no value actually changes; the model always sets
  `updated_at` to the clock reading.
- The clock: real timestamps of one-second resolution are an abstract
  integer reading supplied with each request.
- `VARCHAR(255)` truncation of titles (`api.php:228`): no length limit is
  modelled.
- Tasks.CollectAssignments: the SET list is one slot per column, not an
  ordered list of `column = ?` strings with a parallel parameter list. Each
  column is added at most once, and the order of a SET list does not change
  its effect.
- Concurrency: each request runs alone against the table.
- TaskApi.TaskTable.CreateTask: the `id` column is a signed 32-bit `INT`
  (`api.php:227`), so an insert past id 2147483647 fails with an uncaught
  exception. The model's `nextId` is unbounded and every accepted create
  succeeds.
- Failing statements: with `ERRMODE_EXCEPTION` (`api.php:17`), any query that
  fails after the connection is made raises an exception the script does not
  catch. The in-memory table never fails, so no such path is modelled.
- Byte strings: PHP strings are byte sequences, while the model's strings are
  sequences of Unicode characters. A field that is not valid UTF-8 has no
  counterpart in the model. On valid UTF-8 input `trim` behaves the same,
  because every character it strips is ASCII.
