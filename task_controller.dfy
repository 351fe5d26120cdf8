/** The task endpoints (create, show, update, delete, list all) as
    operations on an in-memory task table. Each returns an Outcome in place
    of the JSON response and its HTTP status. */
module TaskController {
  import opened Wrappers
  import opened TaskEntity
  import TaskRepository

  /** A request body: the title, description and status keys, each None
      when the key is absent or null. */
  datatype Body = Body(title: Option<string>, description: Option<string>, status: Option<string>)

  /** What an endpoint answers. */
  datatype Outcome =
    | Created(task: Task)   // 201, the persisted task
    | Ok(task: Task)        // 200, the task
    | Deleted               // 200, confirmation message only
    | BadRequest            // 400, validation errors
    | NotFound              // 404, no task has the id in the path
    | Failure               // 500, the persistence layer raised an exception

  /** The body's keys written over t through the setters, one key at a
      time; absent keys leave their field alone. */
  function Overlay(t: Task, body: Body): (r: Task)
    ensures r.title == (if body.title.Some? then body.title else t.title)
    ensures r.description == (if body.description.Some? then body.description else t.description)
    ensures r.status == (if body.status.Some? then body.status else t.status)
    ensures r.id == t.id && r.createdAt == t.createdAt && r.updatedAt == t.updatedAt
  {
    var t1 := if body.title.Some? then SetTitle(t, body.title.value) else t;
    var t2 := if body.description.Some? then SetDescription(t1, body.description) else t1;
    if body.status.Some? then SetStatus(t2, body.status.value) else t2
  }

  /** The create body deserialised into a new entity. */
  function Candidate(body: Body): (c: Task)
    ensures c.id.None? && c.createdAt.None? && c.updatedAt.None?
    ensures Valid(c) <==>
      && body.title.Some?
      && TitleMinLength <= |body.title.value| <= TitleMaxLength
      && (body.status.Some? ==> body.status.value in Statuses)
  {
    Overlay(Blank, body)
  }

  /** What create does to a validated candidate before persisting it: both
      timestamps from two clock readings, and the default status. */
  function Stamped(c: Task, createdNow: nat, updatedNow: nat): (r: Task)
    ensures r.createdAt == Some(createdNow) && r.updatedAt == Some(updatedNow)
    ensures r.status == if c.status.None? then Some(DefaultStatus) else c.status
    ensures r.id == c.id && r.title == c.title && r.description == c.description
    ensures Valid(c) ==> Valid(r)
  {
    var s := SetUpdatedAt(SetCreatedAt(c, createdNow), updatedNow);
    if s.status.None? then SetStatus(s, DefaultStatus) else s
  }

  /** What update does to a loaded task before validating it: the body's
      keys, then a fresh updatedAt. */
  function Patched(t: Task, body: Body, now: nat): (r: Task)
    ensures r.title == (if body.title.Some? then body.title else t.title)
    ensures r.description == (if body.description.Some? then body.description else t.description)
    ensures r.status == (if body.status.Some? then body.status else t.status)
    ensures r.updatedAt == Some(now)
    ensures r.id == t.id && r.createdAt == t.createdAt
  {
    SetUpdatedAt(Overlay(t, body), now)
  }

  /** A body that carries only a description keeps a valid task valid and
      leaves its title and status as they were. */
  lemma DescriptionOnlyUpdate(t: Task, description: string, now: nat)
    requires Valid(t)
    ensures var r := Patched(t, Body(None, Some(description), None), now);
      r.title == t.title && r.status == t.status && r.description == Some(description) && Valid(r)
  {
  }

  /** A row of the table as the endpoints leave it: keyed by its own id,
      timestamped, with a status, and valid. */
  predicate StoredRow(k: int, t: Task)
  {
    && t.id == Some(k)
    && t.status.Some?
    && t.createdAt.Some?
    && t.updatedAt.Some?
    && Valid(t)
  }

  /** The task table: rows by id, and the id the next insert receives. */
  class TaskStore {
    var tasks: map<int, Task>
    var nextId: int
    /** Every id ever handed out, including those of deleted rows. */
    ghost var issued: set<int>

    ghost predicate Valid()
      reads this
    {
      && (forall k :: k in tasks ==> k in issued && StoredRow(k, tasks[k]))
      && (forall k :: k in issued ==> 1 <= k < nextId)
      && nextId >= 1
    }

    /** An empty table whose first id is 1. */
    constructor ()
      ensures Valid()
      ensures tasks == map[] && issued == {}
    {
      tasks := map[];
      nextId := 1;
      issued := {};
    }

    /** POST /api/tasks. The candidate is validated first; only a valid one
        is stamped, defaulted and inserted under an id never handed out
        before. persistFails stands for persist/flush raising an exception. */
    method Create(body: Body, createdNow: nat, updatedNow: nat, persistFails: bool) returns (r: Outcome)
      requires Valid()
      modifies this
      ensures Valid()
      ensures !TaskEntity.Valid(Candidate(body)) ==> r == BadRequest
      ensures TaskEntity.Valid(Candidate(body)) && persistFails ==> r == Failure
      ensures r.BadRequest? || r.Failure? ==>
        tasks == old(tasks) && nextId == old(nextId) && issued == old(issued)
      ensures TaskEntity.Valid(Candidate(body)) && !persistFails ==>
        && old(nextId) !in old(issued)
        && r == Created(Stamped(Candidate(body), createdNow, updatedNow).(id := Some(old(nextId))))
        && tasks == old(tasks)[old(nextId) := r.task]
        && issued == old(issued) + {old(nextId)}
        && nextId > old(nextId)
    {
      var task := Candidate(body);
      if !TaskEntity.Valid(task) {
        return BadRequest;
      }
      task := SetCreatedAt(task, createdNow);
      task := SetUpdatedAt(task, updatedNow);
      if task.status.None? {
        task := SetStatus(task, DefaultStatus);
      }
      if persistFails {
        return Failure;
      }
      task := task.(id := Some(nextId));
      tasks := tasks[nextId := task];
      issued := issued + {nextId};
      nextId := nextId + 1;
      r := Created(task);
    }

    /** GET /api/tasks/{id}. */
    method Show(id: int) returns (r: Outcome)
      requires Valid()
      ensures id in tasks ==> r == Ok(tasks[id]) && r.task.id == Some(id) && TaskEntity.Valid(r.task)
      ensures id !in tasks ==> r == NotFound
    {
      if id in tasks {
        r := Ok(tasks[id]);
      } else {
        r := NotFound;
      }
    }

    /** PUT /api/tasks/{id}. The present keys are written through the
        setters, updatedAt is refreshed, and the result is validated; the
        table changes only when the result is valid and the flush succeeds. */
    method Update(id: int, body: Body, now: nat, persistFails: bool) returns (r: Outcome)
      requires Valid()
      modifies this
      ensures Valid()
      ensures nextId == old(nextId) && issued == old(issued)
      ensures id !in old(tasks) ==> r == NotFound && tasks == old(tasks)
      ensures id in old(tasks) ==>
        var p := Patched(old(tasks)[id], body, now);
        if !TaskEntity.Valid(p) then r == BadRequest && tasks == old(tasks)
        else if persistFails then r == Failure && tasks == old(tasks)
        else r == Ok(p) && tasks == old(tasks)[id := p]
    {
      if id !in tasks {
        return NotFound;
      }
      var task := tasks[id];
      if body.title.Some? {
        task := SetTitle(task, body.title.value);
      }
      if body.description.Some? {
        task := SetDescription(task, body.description);
      }
      if body.status.Some? {
        task := SetStatus(task, body.status.value);
      }
      task := SetUpdatedAt(task, now);
      if !TaskEntity.Valid(task) {
        return BadRequest;
      }
      if persistFails {
        return Failure;
      }
      tasks := tasks[id := task];
      r := Ok(task);
    }

    /** DELETE /api/tasks/{id}: removes that row and no other. */
    method Delete(id: int, persistFails: bool) returns (r: Outcome)
      requires Valid()
      modifies this
      ensures Valid()
      ensures nextId == old(nextId) && issued == old(issued)
      ensures id !in old(tasks) ==> r == NotFound && tasks == old(tasks)
      ensures id in old(tasks) && persistFails ==> r == Failure && tasks == old(tasks)
      ensures id in old(tasks) && !persistFails ==> r == Deleted && tasks == old(tasks) - {id}
    {
      if id !in tasks {
        return NotFound;
      }
      if persistFails {
        return Failure;
      }
      tasks := tasks - {id};
      r := Deleted;
    }

    /** GET /api/tasks: every stored task once, and their number. */
    method AllTasks() returns (data: seq<Task>, total: nat)
      requires Valid()
      ensures total == |data| == |tasks|
      ensures forall t :: t in data <==> t in tasks.Values
      ensures forall i, j :: 0 <= i < j < |data| ==> data[i] != data[j]
    {
      assert TaskRepository.Keyed(tasks);
      data := TaskRepository.FindAll(tasks);
      total := |data|;
    }
  }

  /** The create, update, delete, show sequence: a task created without a
      status gets "created"; a status-only update keeps the title; after the
      delete the id is not found. */
  method GroceriesScenario()
  {
    var store := new TaskStore();
    var created := store.Create(Body(Some("Buy groceries"), Some("Milk, eggs"), None), 100, 100, false);
    assert created.Created? && created.task.status == Some("created");
    var id := created.task.id.value;
    var updated := store.Update(id, Body(None, None, Some("in_progress")), 200, false);
    assert updated == Ok(updated.task);
    assert updated.task.status == Some("in_progress") && updated.task.title == Some("Buy groceries");
    var deleted := store.Delete(id, false);
    assert deleted == Deleted;
    var shown := store.Show(id);
    assert shown == NotFound;
    var rejected := store.Create(Body(Some("short"), None, None), 300, 300, false);
    assert rejected == BadRequest;
  }
}
