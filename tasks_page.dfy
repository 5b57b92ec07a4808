/** The data shaping of the tasks page (task-manager/src/pages/Tasks/TasksPage.jsx): collecting
    collaborator IDs and naming them, the bounded collaborator list of the task form, the task
    filter, the status labels and the assignment fields of a saved task. The component state the
    page replaces through its setters is the class `TasksPage`; server responses are parameters. */
module TasksPage {
  import opened Common
  import opened Seqs
  import opened TaskModel

  /** A task as the page holds it. A missing `arr_collaborators` is the empty sequence (the page
      treats both alike); a missing or empty `group_id`/`assigned_to` is `None`; a missing
      `is_group_task` is `false`; `collaboratorUsernames` is only set by `fetchTasks`. */
  datatype TaskView = TaskView(
    id: string,
    title: string,
    category: string,
    status: string,
    arrCollaborators: seq<string>,
    groupId: Option<string>,
    assignedTo: Option<string>,
    isGroupTask: bool,
    collaboratorUsernames: Option<seq<string>>)

  /** The name shown for a collaborator whose ID the batch lookup did not resolve. */
  const UserNotFoundLabel: string := "Usuario no encontrado"

  // ---------------------------------------------------------------- collaborator IDs

  /** All collaborator IDs of all tasks, task by task, in list order. */
  function Flatten(tasks: seq<TaskView>): seq<string>
  {
    if tasks == [] then [] else Flatten(tasks[..|tasks| - 1]) + tasks[|tasks| - 1].arrCollaborators
  }

  /** An ID is collected exactly when some task lists it as a collaborator. */
  lemma {:induction false} FlattenMembership(tasks: seq<TaskView>, id: string)
    ensures id in Flatten(tasks) <==> exists k :: 0 <= k < |tasks| && id in tasks[k].arrCollaborators
  {
    if tasks != [] {
      var p := tasks[..|tasks| - 1];
      FlattenMembership(p, id);
      assert forall k :: 0 <= k < |p| ==> p[k] == tasks[k];
      if id in tasks[|tasks| - 1].arrCollaborators {
        assert id in Flatten(tasks);
      }
    }
  }

  /** The IDs the batch request asks for: every collaborator of every task, each once. */
  lemma CollaboratorIdsSpec(tasks: seq<TaskView>, id: string)
    ensures NoDups(Distinct(Flatten(tasks)))
    ensures id in Distinct(Flatten(tasks)) <==> exists k :: 0 <= k < |tasks| && id in tasks[k].arrCollaborators
  {
    FlattenMembership(tasks, id);
  }

  /** The batch request is skipped exactly when no task has a collaborator. */
  lemma {:induction false} NoCollaboratorIds(tasks: seq<TaskView>)
    ensures Distinct(Flatten(tasks)) == [] <==> forall k :: 0 <= k < |tasks| ==> tasks[k].arrCollaborators == []
  {
    if tasks != [] {
      var p, last := tasks[..|tasks| - 1], tasks[|tasks| - 1];
      NoCollaboratorIds(p);
      assert forall k :: 0 <= k < |p| ==> p[k] == tasks[k];
      assert Flatten(tasks) == Flatten(p) + last.arrCollaborators;
      if Flatten(tasks) != [] {
        var x := Flatten(tasks)[0];
        assert x in Distinct(Flatten(tasks));
      }
    }
  }

  /** Step 1 of `fetchTasks`: every collaborator ID added to a `Set`, read back in insertion order. */
  method CollectCollaboratorIds(tasksData: seq<TaskView>) returns (ids: seq<string>)
    ensures ids == Distinct(Flatten(tasksData))
  {
    ids := [];
    for i := 0 to |tasksData|
      invariant ids == Distinct(Flatten(tasksData[..i]))
    {
      FlattenSnoc(tasksData, i);
      ids := AddEach(ids, tasksData[i].arrCollaborators, Flatten(tasksData[..i]));
    }
    assert tasksData[..|tasksData|] == tasksData;
  }

  lemma FlattenSnoc(tasks: seq<TaskView>, i: nat)
    requires i < |tasks|
    ensures Flatten(tasks[..i + 1]) == Flatten(tasks[..i]) + tasks[i].arrCollaborators
  {
    assert tasks[..i + 1][..i] == tasks[..i];
  }

  /** The inner `forEach`: each ID of `arr` added to the set `ids` already holding `added`. */
  method AddEach(ids: seq<string>, arr: seq<string>, ghost added: seq<string>) returns (r: seq<string>)
    requires ids == Distinct(added)
    ensures r == Distinct(added + arr)
  {
    r := ids;
    assert added + arr[..0] == added;
    for j := 0 to |arr|
      invariant r == Distinct(added + arr[..j])
    {
      r := AddOne(r, arr[j], added + arr[..j]);
      AppendPrefixSnoc(added, arr, j);
    }
    assert arr[..|arr|] == arr;
  }

  /** `Set.prototype.add`: the ID is appended unless the set already holds it. */
  method AddOne(ids: seq<string>, x: string, ghost added: seq<string>) returns (r: seq<string>)
    requires ids == Distinct(added)
    ensures r == Distinct(added + [x])
  {
    DistinctSnoc(added, x);
    r := ids;
    if x !in ids {
      r := ids + [x];
    }
  }

  lemma AppendPrefixSnoc(added: seq<string>, arr: seq<string>, j: nat)
    requires j < |arr|
    ensures added + arr[..j + 1] == (added + arr[..j]) + [arr[j]]
  {
    assert arr[..j + 1] == arr[..j] + [arr[j]];
  }

  // ---------------------------------------------------------------- usernames

  /** The `reduce` over the batch response: user ID to user name, a later entry for the same ID
      overwriting an earlier one. */
  function UsernameMap(users: seq<UserRef>): map<string, string>
  {
    if users == [] then map[]
    else
      var last := users[|users| - 1];
      UsernameMap(users[..|users| - 1])[last.id := last.username]
  }

  /** The map holds exactly the returned IDs, each with the name of its last entry. */
  lemma {:induction false} UsernameMapSpec(users: seq<UserRef>)
    ensures forall id :: id in UsernameMap(users) <==> exists k :: 0 <= k < |users| && users[k].id == id
    ensures forall k :: 0 <= k < |users| && (forall j :: k < j < |users| ==> users[j].id != users[k].id) ==>
      UsernameMap(users)[users[k].id] == users[k].username
  {
    if users != [] {
      var p := users[..|users| - 1];
      UsernameMapSpec(p);
      assert forall k :: 0 <= k < |p| ==> p[k] == users[k];
    }
  }

  /** The accumulator loop behind the `reduce`. */
  method CollaboratorDetailsMap(users: seq<UserRef>) returns (acc: map<string, string>)
    ensures acc == UsernameMap(users)
  {
    acc := map[];
    for i := 0 to |users|
      invariant acc == UsernameMap(users[..i])
    {
      assert users[..i + 1][..i] == users[..i];
      acc := acc[users[i].id := users[i].username];
    }
    assert users[..|users|] == users;
  }

  /** The name shown for one collaborator ID; an empty name is falsy and falls back too. */
  function NameFor(id: string, names: map<string, string>): (n: string)
    ensures n != ""
    ensures id in names && names[id] != "" ==> n == names[id]
    ensures id !in names ==> n == UserNotFoundLabel
    ensures id in names && names[id] == "" ==> n == UserNotFoundLabel
  {
    if id in names && names[id] != "" then names[id] else UserNotFoundLabel
  }

  /** The names shown for a list of collaborator IDs, position by position. */
  function NamesOf(ids: seq<string>, names: map<string, string>): (r: seq<string>)
    ensures |r| == |ids| && forall i :: 0 <= i < |ids| ==> r[i] == NameFor(ids[i], names)
  {
    seq(|ids|, i requires 0 <= i < |ids| => NameFor(ids[i], names))
  }

  /** Step 3 of `fetchTasks`: each task with collaborators gains their names, position by position. */
  function WithUsernames(tasks: seq<TaskView>, names: map<string, string>): (r: seq<TaskView>)
    ensures |r| == |tasks|
  {
    if tasks == [] then []
    else
      var t := tasks[|tasks| - 1];
      var t' := if |t.arrCollaborators| > 0 then t.(collaboratorUsernames := Some(NamesOf(t.arrCollaborators, names))) else t;
      WithUsernames(tasks[..|tasks| - 1], names) + [t']
  }

  /** The mapping keeps count and order, leaves tasks without collaborators untouched, changes
      nothing else in the others, and gives each collaborator, in order, a name or the fallback. */
  lemma {:induction false} WithUsernamesSpec(tasks: seq<TaskView>, names: map<string, string>)
    ensures forall k :: 0 <= k < |tasks| && tasks[k].arrCollaborators == [] ==> WithUsernames(tasks, names)[k] == tasks[k]
    ensures forall k :: 0 <= k < |tasks| && tasks[k].arrCollaborators != [] ==>
      var r := WithUsernames(tasks, names)[k];
      r == tasks[k].(collaboratorUsernames := r.collaboratorUsernames) &&
      r.collaboratorUsernames.Some? &&
      |r.collaboratorUsernames.value| == |tasks[k].arrCollaborators| &&
      forall i :: 0 <= i < |tasks[k].arrCollaborators| ==>
        r.collaboratorUsernames.value[i] == NameFor(tasks[k].arrCollaborators[i], names)
  {
    if tasks != [] {
      var p := tasks[..|tasks| - 1];
      WithUsernamesSpec(p, names);
      assert forall k :: 0 <= k < |p| ==> WithUsernames(tasks, names)[k] == WithUsernames(p, names)[k] && p[k] == tasks[k];
    }
  }

  // ---------------------------------------------------------------- collaborator list

  /** Some entry of `cs` has the ID `id` (the `some` test). */
  predicate HasUser(cs: seq<UserRef>, id: string)
  {
    exists k :: 0 <= k < |cs| && cs[k].id == id
  }

  /** No two entries share an ID. */
  predicate UniqueUserIds(cs: seq<UserRef>)
  {
    forall i, j :: 0 <= i < j < |cs| ==> cs[i].id != cs[j].id
  }

  /** The form's collaborator list: at most three entries with distinct IDs. */
  predicate BoundedUnique(cs: seq<UserRef>)
  {
    |cs| <= 3 && UniqueUserIds(cs)
  }

  /** The reason `handleAddCollaborator` refuses a user. */
  datatype AddWarning = TooManyCollaborators | AlreadyCollaborator

  /** The list after `handleAddCollaborator`: unchanged when full or when the ID is there, else `user` appended. */
  function WithCollaborator(cs: seq<UserRef>, user: UserRef): seq<UserRef>
  {
    if |cs| >= 3 || HasUser(cs, user.id) then cs else cs + [user]
  }

  /** The list after `handleRemoveCollaborator`: every entry with that ID filtered out. */
  function WithoutCollaborator(cs: seq<UserRef>, id: string): seq<UserRef>
  {
    if cs == [] then []
    else
      var rest := WithoutCollaborator(cs[..|cs| - 1], id);
      if cs[|cs| - 1].id != id then rest + [cs[|cs| - 1]] else rest
  }

  /** Whatever the list, a full list or a listed user leaves it unchanged, and otherwise the
      user is appended; with room left the user is in the list afterwards. */
  lemma WithCollaboratorEffect(cs: seq<UserRef>, user: UserRef)
    ensures |cs| >= 3 || HasUser(cs, user.id) ==> WithCollaborator(cs, user) == cs
    ensures |cs| < 3 && !HasUser(cs, user.id) ==> WithCollaborator(cs, user) == cs + [user]
    ensures |cs| < 3 ==> HasUser(WithCollaborator(cs, user), user.id)
  {
    if |cs| < 3 && !HasUser(cs, user.id) {
      var r := cs + [user];
      assert r[|cs|] == user;
    }
  }

  /** Adding keeps a bounded, duplicate-free list bounded and duplicate-free. */
  lemma WithCollaboratorSpec(cs: seq<UserRef>, user: UserRef)
    requires BoundedUnique(cs)
    ensures BoundedUnique(WithCollaborator(cs, user))
  {
    WithCollaboratorEffect(cs, user);
  }

  /** Removing drops every entry with the ID and keeps the others in order. */
  lemma {:induction false} WithoutCollaboratorSpec(cs: seq<UserRef>, id: string)
    ensures !HasUser(WithoutCollaborator(cs, id), id)
    ensures forall c :: c in cs && c.id != id ==> c in WithoutCollaborator(cs, id)
    ensures IsSubsequence(WithoutCollaborator(cs, id), cs)
  {
    if cs != [] {
      var p, last := cs[..|cs| - 1], cs[|cs| - 1];
      assert p + [last] == cs;
      WithoutCollaboratorSpec(p, id);
      var rest := WithoutCollaborator(p, id);
      SubsequenceOfSnoc(rest, p, last);
      if last.id != id {
        assert (rest + [last])[|rest|] == last;
      }
    }
  }

  /** Removing keeps the list bounded and duplicate-free. */
  lemma {:induction false} WithoutCollaboratorBounded(cs: seq<UserRef>, id: string)
    requires BoundedUnique(cs)
    ensures BoundedUnique(WithoutCollaborator(cs, id))
  {
    WithoutCollaboratorSpec(cs, id);
    SubsequenceElements(WithoutCollaborator(cs, id), cs);
    if cs != [] {
      var p, last := cs[..|cs| - 1], cs[|cs| - 1];
      assert BoundedUnique(p) by {
        forall i, j | 0 <= i < j < |p| ensures p[i].id != p[j].id {
          assert cs[i] == p[i] && cs[j] == p[j];
        }
      }
      WithoutCollaboratorBounded(p, id);
      var rest := WithoutCollaborator(p, id);
      if last.id != id {
        WithoutCollaboratorSpec(p, id);
        SubsequenceElements(rest, p);
        assert !HasUser(rest, last.id) by {
          forall k | 0 <= k < |rest| ensures rest[k].id != last.id {
            assert rest[k] in p;
            var m :| 0 <= m < |p| && p[m] == rest[k];
            assert cs[m] == p[m];
          }
        }
      }
    }
  }

  /** Removing a collaborator who was just accepted restores the list. */
  lemma {:induction false} AddThenRemoveCollaborator(cs: seq<UserRef>, user: UserRef)
    requires !HasUser(cs, user.id)
    ensures WithoutCollaborator(cs + [user], user.id) == cs
    decreases |cs|
  {
    assert (cs + [user])[..|cs|] == cs;
    WithoutCollaboratorAbsent(cs, user.id);
  }

  lemma {:induction false} WithoutCollaboratorAbsent(cs: seq<UserRef>, id: string)
    requires !HasUser(cs, id)
    ensures WithoutCollaborator(cs, id) == cs
  {
    if cs != [] {
      var p := cs[..|cs| - 1];
      assert !HasUser(p, id) by {
        forall k | 0 <= k < |p| ensures p[k].id != id { assert p[k] == cs[k]; }
      }
      WithoutCollaboratorAbsent(p, id);
      assert cs[|cs| - 1].id != id;
      assert p + [cs[|cs| - 1]] == cs;
    }
  }

  // ---------------------------------------------------------------- filter

  /** `hay` contains `needle` as a contiguous piece (JavaScript `includes`). */
  predicate Includes(hay: string, needle: string)
  {
    exists i :: 0 <= i <= |hay| - |needle| && PieceAt(hay, i, |needle|) == needle
  }

  /** The `n` characters of `s` from index `i` on. */
  function PieceAt(s: string, i: int, n: nat): string
    requires 0 <= i && i + n <= |s|
  {
    s[i..i + n]
  }

  /** `toLowerCase` on ASCII letters; other characters are kept. */
  function ToLower(s: string): (r: string)
    ensures |r| == |s|
    ensures forall i :: 0 <= i < |s| ==> ('A' <= s[i] <= 'Z' <==> r[i] != s[i])
  {
    seq(|s|, i requires 0 <= i < |s| => if 'A' <= s[i] <= 'Z' then (s[i] as int + 32) as char else s[i])
  }

  /** The test `filteredTasks` applies to one task. */
  predicate MatchesFilter(t: TaskView, searchTerm: string, filterCategory: string)
  {
    Includes(ToLower(t.title), ToLower(searchTerm)) && (filterCategory == "all" || t.category == filterCategory)
  }

  function FilterTasks(tasks: seq<TaskView>, searchTerm: string, filterCategory: string): seq<TaskView>
  {
    if tasks == [] then []
    else
      var rest := FilterTasks(tasks[..|tasks| - 1], searchTerm, filterCategory);
      if MatchesFilter(tasks[|tasks| - 1], searchTerm, filterCategory) then rest + [tasks[|tasks| - 1]] else rest
  }

  /** The filter keeps exactly the matching tasks, in their order. */
  lemma {:induction false} FilterTasksSpec(tasks: seq<TaskView>, searchTerm: string, filterCategory: string)
    ensures forall t :: t in FilterTasks(tasks, searchTerm, filterCategory) <==>
      t in tasks && MatchesFilter(t, searchTerm, filterCategory)
    ensures IsSubsequence(FilterTasks(tasks, searchTerm, filterCategory), tasks)
  {
    if tasks != [] {
      var p, last := tasks[..|tasks| - 1], tasks[|tasks| - 1];
      assert p + [last] == tasks;
      FilterTasksSpec(p, searchTerm, filterCategory);
      SubsequenceOfSnoc(FilterTasks(p, searchTerm, filterCategory), p, last);
    }
  }

  /** With an empty search term and the 'all' category every task is shown. */
  lemma {:induction false} FilterNothing(tasks: seq<TaskView>)
    ensures FilterTasks(tasks, "", "all") == tasks
  {
    if tasks != [] {
      var p := tasks[..|tasks| - 1];
      FilterNothing(p);
      var t := tasks[|tasks| - 1];
      assert PieceAt(ToLower(t.title), 0, 0) == ToLower("");
      assert MatchesFilter(t, "", "all");
      assert p + [t] == tasks;
    }
  }

  /** A term contained verbatim in the title always matches, lower-casing both sides keeps it found. */
  lemma FilterIgnoresCase(t: TaskView, searchTerm: string, filterCategory: string)
    requires Includes(t.title, searchTerm) && (filterCategory == "all" || t.category == filterCategory)
    ensures MatchesFilter(t, searchTerm, filterCategory)
  {
    var i :| 0 <= i <= |t.title| - |searchTerm| && PieceAt(t.title, i, |searchTerm|) == searchTerm;
    var lt, ls := ToLower(t.title), ToLower(searchTerm);
    assert PieceAt(lt, i, |ls|) == ls by {
      forall k | 0 <= k < |ls| ensures lt[i + k] == ls[k] {
        assert t.title[i + k] == searchTerm[k];
      }
    }
  }
  /** Lower-casing is idempotent: a lower-cased string has no capital letter left. */
  lemma ToLowerIdempotent(s: string)
    ensures ToLower(ToLower(s)) == ToLower(s)
  {
  }

  /** The search ignores letter case: titles and terms that differ only in the case of their
      letters give the same answer, so a lower-cased term finds what the typed one finds. */
  lemma FilterCaseInsensitive(t: TaskView, t': TaskView, searchTerm: string, searchTerm': string, filterCategory: string)
    requires ToLower(t.title) == ToLower(t'.title) && t.category == t'.category
    requires ToLower(searchTerm) == ToLower(searchTerm')
    ensures MatchesFilter(t, searchTerm, filterCategory) <==> MatchesFilter(t', searchTerm', filterCategory)
    ensures MatchesFilter(t, ToLower(searchTerm), filterCategory) <==> MatchesFilter(t, searchTerm, filterCategory)
  {
    ToLowerIdempotent(searchTerm);
  }


  // ---------------------------------------------------------------- status labels

  function StatusColor(status: string): (c: string)
    ensures status == StatusCompleted ==> c == "success"
    ensures status == StatusInProgress ==> c == "processing"
    ensures status != StatusCompleted && status != StatusInProgress ==> c == "error"
  {
    if status == "completed" then "success" else if status == "in_progress" then "processing" else "error"
  }

  function StatusText(status: string): (t: string)
    ensures status == StatusCompleted ==> t == "Completada"
    ensures status == StatusInProgress ==> t == "En Progreso"
    ensures status != StatusCompleted && status != StatusInProgress ==> t == "Pendiente"
  {
    if status == "completed" then "Completada" else if status == "in_progress" then "En Progreso" else "Pendiente"
  }

  /** The three statuses the backend accepts get three different labels and colours; every other
      value, valid for the backend or not, is shown as pending. */
  lemma StatusLabelsDistinguishKnownStatuses(s1: string, s2: string)
    requires IsKnownStatus(s1) && IsKnownStatus(s2) && s1 != s2
    ensures StatusText(s1) != StatusText(s2) && StatusColor(s1) != StatusColor(s2)
  {
  }

  // ---------------------------------------------------------------- assignment

  /** The form values `handleSaveTask` reads; the duration is left out (see the README). */
  datatype FormValues = FormValues(
    title: string,
    description: string,
    category: string,
    status: string,
    remindMe: bool,
    assignmentType: string,
    groupId: Option<string>,
    assignedTo: Option<string>)

  /** The body `handleSaveTask` sends. An absent key is `None`. */
  datatype TaskPayload = TaskPayload(
    title: string,
    description: string,
    category: string,
    status: string,
    remindMe: bool,
    assignedBy: string,
    arrCollaborators: seq<string>,
    groupId: Option<string>,
    assignedTo: Option<string>,
    isGroupTask: Option<bool>)

  /** The IDs of the form's collaborators, in order. */
  function CollaboratorIds(cs: seq<UserRef>): (ids: seq<string>)
    ensures |ids| == |cs| && forall i :: 0 <= i < |cs| ==> ids[i] == cs[i].id
  {
    seq(|cs|, i requires 0 <= i < |cs| => cs[i].id)
  }

  /** `handleSaveTask`'s payload: 'group' adds the group and `is_group_task` true, 'member' adds
      the group, the assignee and `is_group_task` false, anything else adds none of the three. */
  function ShapeTaskData(values: FormValues, collaborators: seq<UserRef>, username: Option<string>): (p: TaskPayload)
    ensures p.assignedBy == (if username.Some? then username.value else "")
    ensures values.assignmentType == "group" ==>
      p.groupId == values.groupId && p.assignedTo == None && p.isGroupTask == Some(true)
    ensures values.assignmentType == "member" ==>
      p.groupId == values.groupId && p.assignedTo == values.assignedTo && p.isGroupTask == Some(false)
    ensures values.assignmentType != "group" && values.assignmentType != "member" ==>
      p.groupId == None && p.assignedTo == None && p.isGroupTask == None
    ensures p.arrCollaborators == CollaboratorIds(collaborators)
  {
    var p := TaskPayload(values.title, values.description, values.category, values.status, values.remindMe,
                         if username.Some? then username.value else "", CollaboratorIds(collaborators), None, None, None);
    if values.assignmentType == "group" then p.(groupId := values.groupId, isGroupTask := Some(true))
    else if values.assignmentType == "member" then p.(groupId := values.groupId, assignedTo := values.assignedTo, isGroupTask := Some(false))
    else p
  }

  /** `showModal`'s reading of a stored task: 'group' for a group task with a group, 'member' for
      an assigned task with a group, 'personal' otherwise. */
  function AssignmentOf(t: TaskView): (a: string)
    ensures a == "group" <==> t.isGroupTask && t.groupId.Some?
    ensures a == "member" <==> !(t.isGroupTask && t.groupId.Some?) && t.assignedTo.Some? && t.groupId.Some?
    ensures a == "group" || a == "member" || a == "personal"
  {
    if t.isGroupTask && t.groupId.Some? then "group"
    else if t.assignedTo.Some? && t.groupId.Some? then "member"
    else "personal"
  }

  /** The task the page would read back when the payload's fields are stored as sent. */
  function Echo(id: string, p: TaskPayload): TaskView
  {
    TaskView(id, p.title, p.category, p.status, p.arrCollaborators, p.groupId, p.assignedTo,
             p.isGroupTask == Some(true), None)
  }

  /** Saving and reopening a task gives back the assignment type it was saved with, provided the
      required group (and assignee) were chosen; anything else reopens as 'personal'. */
  lemma AssignmentRoundTrip(id: string, values: FormValues, cs: seq<UserRef>, username: Option<string>)
    requires values.assignmentType == "group" ==> values.groupId.Some?
    requires values.assignmentType == "member" ==> values.groupId.Some? && values.assignedTo.Some?
    ensures var a := AssignmentOf(Echo(id, ShapeTaskData(values, cs, username)));
      if values.assignmentType in {"group", "member"} then a == values.assignmentType else a == "personal"
  {
  }

  // ---------------------------------------------------------------- page state

  class TasksPage {
    var tasks: seq<TaskView>
    var collaborators: seq<UserRef>
    var searchEmail: string
    var searchResults: seq<UserRef>

    constructor ()
      ensures tasks == [] && collaborators == [] && searchEmail == "" && searchResults == []
    {
      tasks := [];
      collaborators := [];
      searchEmail := "";
      searchResults := [];
    }

    /** `fetchTasks`: without a token nothing is requested. Otherwise the task list is
        requested (`tasksReply`, `None` when the request is rejected, an absent `tasks` field
        given as the empty list); the batch lookup goes out only for a non-empty set of
        collaborator IDs (`batchReply`, `None` when rejected, `Some(None)` when its `users`
        field is missing). A rejected request lands in the `catch`, past `setTasks`, so the
        shown tasks stay as they were; otherwise they are stored with their collaborators' names. */
    method FetchTasks(hasToken: bool, tasksReply: Option<seq<TaskView>>, batchReply: Option<Option<seq<UserRef>>>)
      returns (tasksRequested: bool, batchRequest: Option<seq<string>>)
      modifies this
      ensures tasksRequested == hasToken
      ensures !hasToken || tasksReply.None? ==> batchRequest == None && tasks == old(tasks)
      ensures hasToken && tasksReply.Some? ==>
        var ids := Distinct(Flatten(tasksReply.value));
        batchRequest == (if ids == [] then None else Some(ids))
      ensures hasToken && tasksReply.Some? && batchRequest.Some? && batchReply.None? ==> tasks == old(tasks)
      ensures hasToken && tasksReply.Some? && !(batchRequest.Some? && batchReply.None?) ==>
        tasks == WithUsernames(tasksReply.value,
          if batchRequest.Some? && batchReply.Some? && batchReply.value.Some?
          then UsernameMap(batchReply.value.value) else map[])
      ensures collaborators == old(collaborators) && searchEmail == old(searchEmail) && searchResults == old(searchResults)
    {
      if !hasToken {
        return false, None;
      }
      tasksRequested := true;
      batchRequest := None;
      if tasksReply.None? {
        return;
      }
      var tasksData := tasksReply.value;
      var uniqueCollaboratorIds := CollectCollaboratorIds(tasksData);
      var collaboratorDetailsMap: map<string, string> := map[];
      if uniqueCollaboratorIds != [] {
        batchRequest := Some(uniqueCollaboratorIds);
        if batchReply.None? {
          return;
        }
        if batchReply.value.Some? {
          collaboratorDetailsMap := CollaboratorDetailsMap(batchReply.value.value);
        }
      }
      tasks := WithUsernames(tasksData, collaboratorDetailsMap);
    }

    /** `handleAddCollaborator`: warns and changes nothing when the list is full or holds the
        user; otherwise appends the user and clears the search box and its results. */
    method HandleAddCollaborator(user: UserRef) returns (warning: Option<AddWarning>)
      modifies this
      ensures collaborators == WithCollaborator(old(collaborators), user)
      ensures |old(collaborators)| >= 3 ==> warning == Some(TooManyCollaborators)
      ensures |old(collaborators)| < 3 && HasUser(old(collaborators), user.id) ==> warning == Some(AlreadyCollaborator)
      ensures warning.None? <==> |old(collaborators)| < 3 && !HasUser(old(collaborators), user.id)
      ensures warning.None? ==> searchEmail == "" && searchResults == []
      ensures warning.Some? ==> searchEmail == old(searchEmail) && searchResults == old(searchResults)
      ensures tasks == old(tasks)
    {
      if |collaborators| >= 3 {
        return Some(TooManyCollaborators);
      }
      if HasUser(collaborators, user.id) {
        return Some(AlreadyCollaborator);
      }
      collaborators := collaborators + [user];
      searchEmail := "";
      searchResults := [];
      return None;
    }

    /** `handleRemoveCollaborator`: every entry with the ID is filtered out. */
    method HandleRemoveCollaborator(userId: string)
      modifies this
      ensures collaborators == WithoutCollaborator(old(collaborators), userId)
      ensures tasks == old(tasks) && searchEmail == old(searchEmail) && searchResults == old(searchResults)
    {
      collaborators := WithoutCollaborator(collaborators, userId);
    }
  }

  /** The example of a user owning two tasks, the first shared with u1 and u2, the second with u2:
      one batch request for [u1, u2], each ID once. */
  lemma FetchTasksBatchExample(a: TaskView, b: TaskView)
    requires a.arrCollaborators == ["u1", "u2"] && b.arrCollaborators == ["u2"]
    ensures Distinct(Flatten([a, b])) == ["u1", "u2"]
  {
    assert [a, b][..1] == [a];
    assert [a][..0] == [];
    assert Flatten([a]) == Flatten([]) + a.arrCollaborators;
    assert Flatten([a, b]) == Flatten([a]) + b.arrCollaborators;
    assert Flatten([a, b]) == ["u1", "u2", "u2"];
    var s := ["u1", "u2", "u2"];
    assert s[..2] == ["u1", "u2"] && s[..2][..1] == ["u1"] && s[..2][..1][..0] == [];
  }

  /** With only "u1" known (as "ana"), the first task shows "ana" and the label, the second the label. */
  lemma FetchTasksNamesExample(a: TaskView, b: TaskView)
    requires a.arrCollaborators == ["u1", "u2"] && b.arrCollaborators == ["u2"]
    ensures var r := WithUsernames([a, b], map["u1" := "ana"]);
      r[0].collaboratorUsernames == Some(["ana", UserNotFoundLabel]) &&
      r[1].collaboratorUsernames == Some([UserNotFoundLabel])
  {
    assert [a, b][..1] == [a];
    assert [a][..0] == [];
    var m := map["u1" := "ana"];
    assert NamesOf(a.arrCollaborators, m) == ["ana", UserNotFoundLabel];
    assert NamesOf(b.arrCollaborators, m) == [UserNotFoundLabel];
    assert WithUsernames([], m) == [];
    assert WithUsernames([a], m) == WithUsernames([], m) + [a.(collaboratorUsernames := Some(NamesOf(a.arrCollaborators, m)))];
    assert WithUsernames([a, b], m) == WithUsernames([a], m) + [b.(collaboratorUsernames := Some(NamesOf(b.arrCollaborators, m)))];
  }

}
