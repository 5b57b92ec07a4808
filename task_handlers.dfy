/** The task endpoints of the backend (backend/api/handlers/task.go): creation with
    validation, the owner/collaborator update rules, owner-only deletion and the
    de-duplication of a user's task list. The tasks collection is the map `tasks` of a
    `TaskStore`; generated IDs and the clock are parameters. */
module TaskHandlers {
  import opened Common
  import opened Seqs
  import opened TaskModel

  // ---------------------------------------------------------------- contains

  /** Go's `contains`: a linear search for `str`. */
  method Contains(arr: seq<string>, str: string) returns (found: bool)
    ensures found <==> str in arr
  {
    for i := 0 to |arr|
      invariant str !in arr[..i]
    {
      if arr[i] == str {
        return true;
      }
    }
    assert arr[..|arr|] == arr;
    return false;
  }

  // ---------------------------------------------------------------- removeDuplicateTasks

  /** Some task of `ts` has the ID `id`. */
  predicate HasId(ts: seq<Task>, id: string)
  {
    exists k :: 0 <= k < |ts| && ts[k].id == id
  }

  /** No two tasks share an ID. */
  predicate UniqueIds(ts: seq<Task>)
  {
    forall i, j :: 0 <= i < j < |ts| ==> ts[i].id != ts[j].id
  }

  /** `t` is the first task of `ts` carrying its ID. */
  predicate IsFirstWithItsId(ts: seq<Task>, t: Task)
  {
    exists j :: 0 <= j < |ts| && ts[j] == t && !HasId(ts[..j], t.id)
  }

  /** The tasks of `ts`, keeping only the first task of each ID. */
  function DedupById(ts: seq<Task>): seq<Task>
  {
    if ts == [] then []
    else
      var d := DedupById(ts[..|ts| - 1]);
      if HasId(d, ts[|ts| - 1].id) then d else d + [ts[|ts| - 1]]
  }

  lemma HasIdSnoc(ts: seq<Task>, t: Task, id: string)
    ensures HasId(ts + [t], id) <==> HasId(ts, id) || t.id == id
  {
    if HasId(ts + [t], id) {
      var k :| 0 <= k < |ts + [t]| && (ts + [t])[k].id == id;
      if k < |ts| { assert ts[k] == (ts + [t])[k]; }
    }
    if HasId(ts, id) {
      var k :| 0 <= k < |ts| && ts[k].id == id;
      assert (ts + [t])[k] == ts[k];
    }
    assert (ts + [t])[|ts|] == t;
  }

  /** The de-duplicated list has unique IDs, loses no ID, keeps the input order, and holds
      the first task of each ID. */
  lemma {:induction false} DedupByIdSpec(ts: seq<Task>)
    ensures UniqueIds(DedupById(ts))
    ensures forall id :: HasId(DedupById(ts), id) <==> HasId(ts, id)
    ensures IsSubsequence(DedupById(ts), ts)
    ensures forall t :: t in DedupById(ts) ==> IsFirstWithItsId(ts, t)
  {
    if ts != [] {
      var p, last := ts[..|ts| - 1], ts[|ts| - 1];
      assert p + [last] == ts;
      DedupByIdSpec(p);
      var d := DedupById(p);
      forall id ensures HasId(ts, id) <==> HasId(p, id) || last.id == id {
        HasIdSnoc(p, last, id);
      }
      SubsequenceOfSnoc(d, p, last);
      forall t | IsFirstWithItsId(p, t) ensures IsFirstWithItsId(ts, t) {
        var j :| 0 <= j < |p| && p[j] == t && !HasId(p[..j], t.id);
        assert ts[..j] == p[..j];
        assert ts[j] == t;
      }
      if !HasId(d, last.id) {
        forall id ensures HasId(d + [last], id) <==> HasId(d, id) || last.id == id {
          HasIdSnoc(d, last, id);
        }
        assert UniqueIds(d + [last]) by {
          forall i | 0 <= i < |d| ensures d[i].id != last.id { }
        }
        assert IsFirstWithItsId(ts, last) by {
          assert ts[..|p|] == p;
        }
      }
    }
  }

  /** A list that already has unique IDs is left as it is; so de-duplicating is idempotent. */
  lemma {:induction false} DedupOfUniqueIds(ts: seq<Task>)
    requires UniqueIds(ts)
    ensures DedupById(ts) == ts
  {
    if ts != [] {
      var p, last := ts[..|ts| - 1], ts[|ts| - 1];
      DedupOfUniqueIds(p);
      DedupByIdSpec(p);
      assert !HasId(p, last.id) by {
        forall k | 0 <= k < |p| ensures p[k].id != last.id {
          assert ts[k] == p[k];
        }
      }
      assert p + [last] == ts;
    }
  }

  lemma DedupIdempotent(ts: seq<Task>)
    ensures DedupById(DedupById(ts)) == DedupById(ts)
  {
    DedupByIdSpec(ts);
    DedupOfUniqueIds(DedupById(ts));
  }

  /** Go's `removeDuplicateTasks`: one pass with a `seen` map, appending each task whose ID is new. */
  method RemoveDuplicateTasks(tasks: seq<Task>) returns (uniqueTasks: seq<Task>)
    ensures uniqueTasks == DedupById(tasks)
  {
    var seen: map<string, bool> := map[];
    uniqueTasks := [];
    for i := 0 to |tasks|
      invariant uniqueTasks == DedupById(tasks[..i])
      invariant forall id :: (id in seen && seen[id]) <==> HasId(tasks[..i], id)
    {
      var task := tasks[i];
      DedupByIdSpec(tasks[..i]);
      assert tasks[..i + 1] == tasks[..i] + [task];
      forall id ensures HasId(tasks[..i + 1], id) <==> HasId(tasks[..i], id) || task.id == id {
        HasIdSnoc(tasks[..i], task, id);
      }
      if !(task.id in seen && seen[task.id]) {
        seen := seen[task.id := true];
        uniqueTasks := uniqueTasks + [task];
      }
    }
    assert tasks[..|tasks|] == tasks;
  }

  // ---------------------------------------------------------------- requests

  /** The body of a create request; a nil `arr_collaborators` is `None`. */
  datatype CreateRequest = CreateRequest(
    title: string,
    description: string,
    status: string,
    timeUntilFinish: int,
    remindMe: bool,
    category: string,
    groupId: Option<string>,
    assignedTo: Option<string>,
    arrCollaborators: Option<seq<string>>)

  /** The body of an update request: "" and 0 mean "no change", and so does a nil pointer or slice. */
  datatype UpdateRequest = UpdateRequest(
    title: string,
    description: string,
    status: string,
    timeUntilFinish: int,
    remindMe: bool,
    category: string,
    groupId: Option<string>,
    assignedTo: Option<string>,
    arrCollaborators: Option<seq<string>>)

  /** The record `CreateTask` builds: the requester becomes owner and creator, both
      timestamps are `now`, and the request supplies the rest. */
  function NewTask(userID: string, req: CreateRequest, newID: string, now: Timestamp): (t: Task)
    ensures t.id == newID && t.userId == userID && t.createdBy == userID
    ensures t.title == req.title && t.description == req.description && t.status == req.status
    ensures t.timeUntilFinish == req.timeUntilFinish && t.remindMe == req.remindMe && t.category == req.category
    ensures t.groupId == req.groupId && t.assignedTo == req.assignedTo
    ensures t.createdAt == now && t.updatedAt == now
    ensures t.arrCollaborators == (if req.arrCollaborators.Some? then req.arrCollaborators.value else [])
  {
    Task(newID, userID, req.title, req.description, req.timeUntilFinish, req.remindMe, req.status,
         req.category, now, now, userID, req.groupId, req.assignedTo,
         if req.arrCollaborators.Some? then req.arrCollaborators.value else [])
  }

  /** The five fields owner and collaborator may both change: a non-empty (non-zero) value replaces the stored one. */
  function CommonUpdate(t: Task, req: UpdateRequest): Task
  {
    t.(title := if req.title != "" then req.title else t.title,
       description := if req.description != "" then req.description else t.description,
       status := if req.status != "" then req.status else t.status,
       timeUntilFinish := if req.timeUntilFinish != 0 then req.timeUntilFinish else t.timeUntilFinish,
       category := if req.category != "" then req.category else t.category)
  }

  /** The three fields only the owner may change: a non-nil value replaces the stored one. */
  function OwnerUpdate(t: Task, req: UpdateRequest): Task
  {
    t.(groupId := if req.groupId.Some? then req.groupId else t.groupId,
       assignedTo := if req.assignedTo.Some? then req.assignedTo else t.assignedTo,
       arrCollaborators := if req.arrCollaborators.Some? then req.arrCollaborators.value else t.arrCollaborators)
  }

  /** The task after an authorized update. The owner may set all eight fields, a collaborator
      only title, description, status, time_until_finish and category; an empty value
      keeps the stored one, and `remind_me` is never taken from the request. */
  function Merge(t: Task, req: UpdateRequest, isOwner: bool): (r: Task)
    ensures req.title == "" ==> r.title == t.title
    ensures req.title != "" ==> r.title == req.title
    ensures req.description == "" ==> r.description == t.description
    ensures req.description != "" ==> r.description == req.description
    ensures req.status == "" ==> r.status == t.status
    ensures req.status != "" ==> r.status == req.status
    ensures req.timeUntilFinish == 0 ==> r.timeUntilFinish == t.timeUntilFinish
    ensures req.timeUntilFinish != 0 ==> r.timeUntilFinish == req.timeUntilFinish
    ensures req.category == "" ==> r.category == t.category
    ensures req.category != "" ==> r.category == req.category
    ensures !isOwner || req.groupId.None? ==> r.groupId == t.groupId
    ensures !isOwner || req.assignedTo.None? ==> r.assignedTo == t.assignedTo
    ensures !isOwner || req.arrCollaborators.None? ==> r.arrCollaborators == t.arrCollaborators
    ensures isOwner && req.groupId.Some? ==> r.groupId == req.groupId
    ensures isOwner && req.assignedTo.Some? ==> r.assignedTo == req.assignedTo
    ensures isOwner && req.arrCollaborators.Some? ==> r.arrCollaborators == req.arrCollaborators.value
    ensures r.remindMe == t.remindMe && r.id == t.id && r.userId == t.userId && r.createdBy == t.createdBy
    ensures r.createdAt == t.createdAt && r.updatedAt == t.updatedAt
  {
    if isOwner then OwnerUpdate(CommonUpdate(t, req), req) else CommonUpdate(t, req)
  }

  /** A request that changes nothing leaves the task as it was, for owner and collaborator alike. */
  lemma EmptyRequestKeepsTask(t: Task, isOwner: bool)
    ensures Merge(t, UpdateRequest("", "", "", 0, true, "", None, None, None), isOwner) == t
  {
  }

  /** A collaborator's request is the owner's request stripped of the three owner-only fields. */
  lemma CollaboratorIsOwnerWithoutAssignment(t: Task, req: UpdateRequest)
    ensures Merge(t, req, false) == Merge(t, req.(groupId := None, assignedTo := None, arrCollaborators := None), true)
  {
  }

  /** The five assignments both branches of the Go handler perform. */
  method ApplyCommonFields(t: Task, req: UpdateRequest) returns (r: Task)
    ensures r == CommonUpdate(t, req)
  {
    r := t;
    if req.title != "" { r := r.(title := req.title); }
    if req.description != "" { r := r.(description := req.description); }
    if req.status != "" { r := r.(status := req.status); }
    if req.timeUntilFinish != 0 { r := r.(timeUntilFinish := req.timeUntilFinish); }
    if req.category != "" { r := r.(category := req.category); }
  }

  /** The three further assignments of the owner branch. */
  method ApplyOwnerFields(t: Task, req: UpdateRequest) returns (r: Task)
    ensures r == OwnerUpdate(t, req)
  {
    r := t;
    if req.groupId.Some? { r := r.(groupId := req.groupId); }
    if req.assignedTo.Some? { r := r.(assignedTo := req.assignedTo); }
    if req.arrCollaborators.Some? { r := r.(arrCollaborators := req.arrCollaborators.value); }
  }

  // ---------------------------------------------------------------- the store

  class TaskStore {
    var tasks: map<string, Task>

    constructor ()
      ensures tasks == map[]
    {
      tasks := map[];
    }

    /** `CreateTask`: the new record is stored under `newID` when it validates, else 400. */
    method CreateTask(userID: string, req: CreateRequest, newID: string, now: Timestamp)
      returns (status: HttpStatus, created: Option<Task>)
      modifies this
      ensures var t := NewTask(userID, req, newID, now);
        if t.Validate() then
          status == Created && created == Some(t) && tasks == old(tasks)[newID := t]
        else
          status == BadRequest && created == None && tasks == old(tasks)
    {
      var task := NewTask(userID, req, newID, now);
      if !task.Validate() {
        return BadRequest, None;
      }
      tasks := tasks[newID := task];
      return Created, Some(task);
    }

    /** `UpdateTask`: 404 for an unknown ID, 403 unless the requester owns the task or is one of
        its collaborators, 400 (and nothing written) when the merged task fails validation,
        otherwise the merged task is stored with `updated_at` set to `now`. */
    method UpdateTask(taskID: string, userID: string, req: UpdateRequest, now: Timestamp)
      returns (status: HttpStatus, updated: Option<Task>)
      modifies this
      ensures taskID !in old(tasks) ==> status == NotFound && updated == None && tasks == old(tasks)
      ensures taskID in old(tasks) ==>
        var t := old(tasks)[taskID];
        var isOwner := t.userId == userID;
        if !isOwner && userID !in t.arrCollaborators then
          status == Forbidden && updated == None && tasks == old(tasks)
        else
          var m := Merge(t, req, isOwner);
          if !m.Validate() then
            status == BadRequest && updated == None && tasks == old(tasks)
          else
            status == OK && updated == Some(m) && tasks == old(tasks)[taskID := m.(updatedAt := now)]
    {
      if taskID !in tasks {
        return NotFound, None;
      }
      var existingTask := tasks[taskID];
      var isOwner := existingTask.userId == userID;
      var isCollaborator := Contains(existingTask.arrCollaborators, userID);
      if !isOwner && !isCollaborator {
        return Forbidden, None;
      }
      existingTask := ApplyCommonFields(existingTask, req);
      if isOwner {
        existingTask := ApplyOwnerFields(existingTask, req);
      }
      if !existingTask.Validate() {
        return BadRequest, None;
      }
      tasks := tasks[taskID := existingTask.(updatedAt := now)];
      return OK, Some(existingTask);
    }

    /** `DeleteTask`: 404 for an unknown ID, 403 unless the requester owns the task. */
    method DeleteTask(taskID: string, userID: string) returns (status: HttpStatus)
      modifies this
      ensures taskID !in old(tasks) ==> status == NotFound && tasks == old(tasks)
      ensures taskID in old(tasks) && old(tasks)[taskID].userId != userID ==>
        status == Forbidden && tasks == old(tasks)
      ensures taskID in old(tasks) && old(tasks)[taskID].userId == userID ==>
        status == OK && tasks == old(tasks) - {taskID}
    {
      if taskID !in tasks {
        return NotFound;
      }
      if tasks[taskID].userId != userID {
        return Forbidden;
      }
      tasks := tasks - {taskID};
      return OK;
    }
  }
}
