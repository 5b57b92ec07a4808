/** The task record of the backend and its validation rule (backend/internal/models/task.go). */
module TaskModel {
  import opened Common

  const StatusPending: string := "pending"
  const StatusInProgress: string := "in_progress"
  const StatusCompleted: string := "completed"

  /** A task document. The struct in models/task.go lists the first ten fields; the task
      handlers also read and write the last four, so the record carries both sets.
      `timeUntilFinish` is a Go `time.Duration` (nanoseconds); a nil `ArrCollaborators`
      slice is the empty sequence. */
  datatype Task = Task(
    id: string,
    userId: string,
    title: string,
    description: string,
    timeUntilFinish: int,
    remindMe: bool,
    status: string,
    category: string,
    createdAt: Timestamp,
    updatedAt: Timestamp,
    createdBy: string,
    groupId: Option<string>,
    assignedTo: Option<string>,
    arrCollaborators: seq<string>)
  {
    /** The required fields are filled in and the status is one of the three known ones. */
    function Validate(): (ok: bool)
      ensures ok <==> title != "" && description != "" && IsKnownStatus(status)
      ensures title == "" || description == "" ==> !ok
    {
      if title == "" || description == "" then false
      else if status == StatusPending || status == StatusInProgress || status == StatusCompleted then true
      else false
    }
  }

  /** The three status values the backend accepts. */
  predicate IsKnownStatus(s: string)
  {
    s in {StatusPending, StatusInProgress, StatusCompleted}
  }

  /** Only the three constants pass; "archived", the empty string and any other value are refused. */
  lemma ValidateStatusValues(t: Task)
    requires t.title != "" && t.description != ""
    ensures t.Validate() <==> t.status == "pending" || t.status == "in_progress" || t.status == "completed"
    ensures t.status == "archived" ==> !t.Validate()
  {
  }

  /** Validation looks only at the title, the description and the status. */
  lemma ValidateReadsOnlyRequiredFields(t: Task, u: Task)
    requires t.title == u.title && t.description == u.description && t.status == u.status
    ensures t.Validate() == u.Validate()
  {
  }
}
