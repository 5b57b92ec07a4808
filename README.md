# Task manager: task and group membership rules

This project models the core of a task manager. The backend is written in Go on Firestore, and the web client in React. The model covers:

- **The backend models** (`backend/internal/models`):
  - task validation;
  - group validation and in-memory membership changes;
  - the user record, its map round trip, and its e-mail, username and password rules.
- **The task endpoints** (`backend/api/handlers/task.go`):
  - creating a task;
  - the de-duplication step of the task listing;
  - the owner/collaborator update merge;
  - update and delete authorisation.
- **The group service** (`backend/internal/services/group.go`):
  - creating and looking up groups;
  - reading member details;
  - adding and removing members, including the mirrored `groups` list in the user document.
- **The group endpoints** (`backend/api/handlers/group.go`): who may view a group, add to it and remove from it.
- **The tasks page** (`task-manager/src/pages/Tasks/TasksPage.jsx`):
  - collecting collaborator IDs and resolving usernames;
  - the bounded collaborator list;
  - the search/category filter and the status labels;
  - shaping the task payload, and deriving the assignment type back from a task.
- **The groups page** (`task-manager/src/pages/Groups/GroupsPage.jsx`):
  - normalising the member list;
  - searching users while leaving out members;
  - adding a user to the selected group;
  - the avatar colour hash.

The Firestore collections are fields of the classes `TaskHandlers.TaskStore` and `GroupServices.GroupService`. The React component state is a field of `TasksPage.TasksPage` and `GroupsPage.GroupView`. Server replies, generated IDs, the clock and the outcome of writes are parameters.

The modules:

| module | models |
|---|---|
| `Common` | shared values: options, Firestore values and documents, user references, HTTP statuses, the UTF-8 length |
| `Seqs` | sequence notions used throughout: duplicates, subsequences, order-keeping de-duplication, removing elements |
| `TaskModel` | `backend/internal/models/task.go` |
| `GroupModel` | `backend/internal/models/group.go` |
| `UserModel` | `backend/internal/models/user.go` |
| `TaskHandlers` | `backend/api/handlers/task.go` |
| `GroupServices` | `backend/internal/services/group.go` |
| `GroupHandlers` | `backend/api/handlers/group.go` |
| `TasksPage` | `task-manager/src/pages/Tasks/TasksPage.jsx` |
| `GroupsPage` | `task-manager/src/pages/Groups/GroupsPage.jsx` |

Two facts about the code shape what is modelled:

- The web client has no drag-and-drop task board and no optimistic update with rollback. The tasks page fetches the task list, filters it and shows it, as modelled here.
- The server has no `archived` status. `Task.Validate` accepts only `pending`, `in_progress` and `completed`, so a task with status `archived` is rejected on create and on update (`TaskModel.ValidateStatusValues`).

## Model

| member | source | states |
|---|---|---|
| `Common.ByteLen` | backend/internal/models/group.go:20-25 | Go's `len` of a string (its UTF-8 byte count) lies between the number of characters and four times it |
| `Common.ByteLenAscii` | backend/internal/models/user.go:49 | on ASCII text the byte length is the character count, so the username length bound is a character bound |
| `Seqs.Distinct` | task-manager/src/pages/Tasks/TasksPage.jsx:115-121 | collecting into a `Set` and spreading it gives a duplicate-free list with exactly the input's elements, in first-seen order |
| `Seqs.DistinctSnoc` | task-manager/src/pages/Tasks/TasksPage.jsx:117-119 | adding one ID to the set appends it exactly when it is new |
| `Seqs.DistinctIdempotent` | task-manager/src/pages/Tasks/TasksPage.jsx:115-121 | de-duplicating twice is de-duplicating once |
| `Seqs.DistinctOfNoDups` | task-manager/src/pages/Tasks/TasksPage.jsx:115-121 | a list without repeats passes through the set unchanged |
| `Seqs.RemoveAllSpec` | backend/internal/services/group.go:218-227 | the filtering loop drops every occurrence of the removed ID, keeps every other element in order, and keeps a duplicate-free list duplicate-free |
| `Seqs.RemoveAllMembers` | backend/internal/services/group.go:218-227 | filtering drops the removed ID, keeps every other element in order, and changes nothing when the ID is absent |
| `Seqs.RemoveAllNoDups` | backend/internal/services/group.go:218-227 | filtering a duplicate-free list leaves it duplicate-free |
| `Seqs.RemoveFirstSpec` | backend/internal/models/group.go:39-46 | removing the first occurrence shortens the list by one when present, leaves it alone otherwise, and takes exactly one copy out of the multiset |
| `Seqs.RemoveFirstIsRemoveAll` | backend/internal/models/group.go:39-46 | on a duplicate-free member list, removing the first occurrence (model) and removing all occurrences (service) agree |
| `TaskModel.Task.Validate` | backend/internal/models/task.go:29-42 | a task is valid iff title and description are non-empty and the status is one of the three known ones |
| `TaskModel.ValidateStatusValues` | backend/internal/models/task.go:36-41 | with title and description present, validity is exactly membership of pending, in_progress, completed; `archived` is rejected |
| `TaskModel.ValidateReadsOnlyRequiredFields` | backend/internal/models/task.go:29-42 | validity depends on title, description and status only |
| `GroupModel.Group.Validate` | backend/internal/models/group.go:19-26 | a group is valid iff it has a creator, a name and at least one member, a name of at most 100 bytes and a description of at most 500 bytes; a valid group's name and description are then at most that many characters |
| `GroupModel.Group.AddMember` | backend/internal/models/group.go:29-36 | the group with the user appended unless already a member, every other field unchanged |
| `GroupModel.Group.RemoveMember` | backend/internal/models/group.go:39-46 | the group with the first occurrence of the user removed, every other field unchanged |
| `GroupModel.JoinedSpec` | backend/internal/models/group.go:29-36 | after adding, the user is a member; adding a member changes nothing; adding a newcomer grows the list by one |
| `GroupModel.JoinedIdempotentAndNoDups` | backend/internal/models/group.go:29-36 | adding twice is adding once, and adding keeps a duplicate-free member list duplicate-free |
| `GroupModel.RemoveMemberSpec` | backend/internal/models/group.go:39-46 | removing a non-member changes nothing; removing a member takes out exactly the first occurrence, one copy of the user |
| `UserModel.User.ToMap` | backend/internal/models/user.go:111-120 | the map has exactly the six keys, strings everywhere except a time under `created_at` |
| `UserModel.User.FromMap` | backend/internal/models/user.go:123-142 | each field is taken from the map when its key holds a value of the right type and is otherwise left as it was |
| `UserModel.ToMapFromMapRoundTrip` | backend/internal/models/user.go:111-142 | reading back a user's own map reproduces the user, whatever the receiver held before |
| `UserModel.IndexOf` | backend/internal/models/user.go:68 | the first position of a character, or none exactly when it does not occur |
| `UserModel.LastIndexOf` | backend/internal/models/user.go:68 | the last position of a character, or none exactly when it does not occur |
| `UserModel.IsValidEmail` | backend/internal/models/user.go:65-70 | the scanning check accepts exactly the strings matching `local@domain.tld` of the regular expression (local part of `[a-zA-Z0-9._%+-]`, domain of `[a-zA-Z0-9.-]`, a final dot and at least two letters) |
| `UserModel.EmailReading` | backend/internal/models/user.go:68 | with the first `@` at position i, matching the expression is equivalent to reading the address split at i and at the last dot |
| `UserModel.PatternGivesReading` | backend/internal/models/user.go:68 | a match of the expression can be read at the first `@` |
| `UserModel.ReadingGivesPattern` | backend/internal/models/user.go:68 | a successful reading is a match of the expression |
| `UserModel.FirstAtEndsLocalPart` | backend/internal/models/user.go:68 | the local part holds no `@`, so the `@` after it is the first one |
| `UserModel.AllDomainJoin` | backend/internal/models/user.go:68 | a domain, a dot and a run of letters together are domain characters |
| `UserModel.DomainReading` | backend/internal/models/user.go:68 | a domain followed by a dot and letters is a domain string whose last dot precedes the letters |
| `UserModel.LastIndexOfBeforeTail` | backend/internal/models/user.go:68 | the last occurrence of a character not in the tail is the one just before the tail |
| `UserModel.IsValidUsername` | backend/internal/models/user.go:73-77 | a username is accepted iff it is non-empty and made only of ASCII letters, digits, `_` and `-` |
| `UserModel.Classify` | backend/internal/models/user.go:93-103 | each character falls in the first class of the switch it belongs to: upper, then lower, then number, then punctuation or symbol |
| `UserModel.IsValidPassword` | backend/internal/models/user.go:80-107 | the loop accepts iff the password is at least six bytes long and has an upper-case, a lower-case, a digit and a special character |
| `UserModel.StrongPasswordNeedsAllClasses` | backend/internal/models/user.go:80-107 | without a special character no password is strong, and a strong one has at least two characters and six bytes |
| `UserModel.Validate` | backend/internal/models/user.go:37-62 | a user is valid iff all four required fields are present, the e-mail matches, the username has 3 to 20 bytes of allowed characters and the password is strong |
| `UserModel.ValidUserNameLength` | backend/internal/models/user.go:49-54 | a valid user's username has 3 to 20 characters, all allowed ones |
| `TaskHandlers.Contains` | backend/api/handlers/task.go:170-177 | the loop answers true iff the ID is in the list |
| `TaskHandlers.DedupByIdSpec` | backend/api/handlers/task.go:155-167 | the de-duplicated list has unique IDs, contains a task with a given ID iff the input does, keeps input order, and keeps the first task of each ID |
| `TaskHandlers.DedupOfUniqueIds` | backend/api/handlers/task.go:155-167 | a list whose IDs are already unique is returned unchanged |
| `TaskHandlers.DedupIdempotent` | backend/api/handlers/task.go:155-167 | de-duplicating twice is de-duplicating once |
| `TaskHandlers.RemoveDuplicateTasks` | backend/api/handlers/task.go:155-167 | the loop with its `seen` map computes the order-keeping first-occurrence de-duplication |
| `TaskHandlers.NewTask` | backend/api/handlers/task.go:58-73 | a created task gets the fresh ID, the requester as owner and creator, the request's title, description, status, deadline, reminder, category, group and assignee, the current time as creation and update time, and the request's collaborators, a missing list counting as empty |
| `TaskHandlers.Merge` | backend/api/handlers/task.go:226-282 | each shared field takes the request value when it is non-empty and otherwise keeps the stored one; group, assignee and collaborators change only for the owner and only when sent; `remind_me`, identity and timestamps are never changed by the merge |
| `TaskHandlers.EmptyRequestKeepsTask` | backend/api/handlers/task.go:226-282 | an update request with every field empty changes nothing, for owner and collaborator alike |
| `TaskHandlers.CollaboratorIsOwnerWithoutAssignment` | backend/api/handlers/task.go:226-282 | a collaborator's update is an owner's update with the group, assignee and collaborator fields dropped |
| `TaskHandlers.TaskStore.CreateTask` | backend/api/handlers/task.go:43-91 | a valid new task is stored under its fresh ID with 201; an invalid one is refused with 400 and nothing is stored |
| `TaskHandlers.TaskStore.UpdateTask` | backend/api/handlers/task.go:179-299 | 404 for an unknown task, 403 unless the user is owner or collaborator, 400 and no write when the merged task is invalid, else 200 with the merged task stored with the new update time and nothing else changed |
| `TaskHandlers.TaskStore.DeleteTask` | backend/api/handlers/task.go:301-342 | 404 for an unknown task, 403 unless the user is the owner, else 200 with exactly that task removed |
| `GroupServices.StringsOf` | backend/internal/services/group.go:171 | the strings read out of a stored array are exactly its string elements |
| `GroupServices.StringsOfSnoc` | backend/internal/services/group.go:171 | reading a stored array keeps its order: each string element lands at the end of what the elements before it gave, other elements add nothing |
| `GroupServices.AssertedGroups` | backend/internal/services/group.go:171 | the type assertion to `[]string` yields a list only when the stored value is a Go `[]string` |
| `GroupServices.StoredGroupsMisreadAsWritten` | backend/internal/services/group.go:170-197 | as written, on a document read back from the store, joining leaves only the new group and leaving removes nothing |
| `GroupServices.GroupsMisreadExample` | backend/internal/services/group.go:247-271 | as written, a user in g1 who joins g2 ends up listing only g2, and leaving g1 keeps g1 listed; read as intended, g1 and g2 are listed, and leaving g1 lists none |
| `GroupServices.JoinGroupDocSpec` | backend/internal/services/group.go:169-197 | joining lists the group, changes nothing when it is already listed, otherwise appends it, keeps the list duplicate-free and touches no other field |
| `GroupServices.LeaveGroupDocSpec` | backend/internal/services/group.go:246-271 | leaving unlists the group, keeps every other group in order and touches no other field |
| `GroupServices.JoinThenLeave` | backend/internal/services/group.go:169-271 | leaving a group just joined restores the earlier `groups` list |
| `GroupServices.AddThenRemoveMember` | backend/internal/services/group.go:156-227 | removing a member just added restores the earlier member list |
| `GroupServices.RemovalKeepsCreator` | backend/internal/services/group.go:212-227 | removing anyone but the creator keeps the creator a member |
| `GroupServices.RoleOf` | backend/internal/services/group.go:114-118 | the reported role is never empty: the stored one when it is a non-empty string, and `user` in every other case |
| `GroupServices.DetailOf` | backend/internal/services/group.go:120-125 | a member record carries the document's ID, username, e-mail and role, and no password |
| `GroupServices.MemberDetailsSpec` | backend/internal/services/group.go:96-131 | at most one record per ID, every role filled in, one per ID when all are known, and no records exactly when no ID is known |
| `GroupServices.GroupService.CreateGroup` | backend/internal/services/group.go:25-44 | an empty ID is replaced by a fresh one, the creation time is set, and the group is stored under its ID with nothing validated |
| `GroupServices.GroupService.GetGroupByID` | backend/internal/services/group.go:47-63 | the stored group, or none exactly when the ID is unknown |
| `GroupServices.GroupService.GetGroupMembersDetails` | backend/internal/services/group.go:96-131 | the loop yields the member details; the result is nil exactly when IDs were given and none was found |
| `GroupServices.GroupService.AddMemberToGroup` | backend/internal/services/group.go:134-200 | unknown group, unknown user and existing member are refused with nothing changed; otherwise the user is appended to the members and, when that write succeeds, the group is joined in the user's document |
| `GroupServices.GroupService.RemoveMemberFromGroup` | backend/internal/services/group.go:203-274 | unknown group, the creator and a non-member are refused with nothing changed; otherwise every occurrence of the user leaves the members and, when the user document exists and the write succeeds, the group leaves its list |
| `GroupHandlers.ViewerSeesMembers` | backend/api/handlers/group.go:76-92 | a member who may view a group and has a user document always gets a non-empty members list |
| `GroupHandlers.CreatorNeverRemoved` | backend/api/handlers/group.go:168-179 | whoever passes the remove check, the creator either is the target (and the service refuses) or stays a member |
| `GroupHandlers.GroupHandler.CreateGroupHandler` | backend/api/handlers/group.go:23-53 | the requester becomes creator and is appended to the members, so they can view and add; the group is stored with 201 |
| `GroupHandlers.GroupHandler.GetGroupHandler` | backend/api/handlers/group.go:56-95 | 500 when the group is unknown, 403 unless the requester is a member (being creator is not enough), else 200 with the group and the member details when not nil |
| `GroupHandlers.GroupHandler.AddMemberHandler` | backend/api/handlers/group.go:116-152 | 500 when unknown, 403 unless creator or member, else the service's effect, its refusals becoming 500 with nothing changed |
| `GroupHandlers.GroupHandler.RemoveMemberHandler` | backend/api/handlers/group.go:155-183 | 500 when unknown, 403 unless creator or removing oneself, else the service's effect, its refusals becoming 500 with nothing changed |
| `TasksPage.FlattenMembership` | task-manager/src/pages/Tasks/TasksPage.jsx:115-121 | an ID is collected iff some task lists it as a collaborator |
| `TasksPage.CollaboratorIdsSpec` | task-manager/src/pages/Tasks/TasksPage.jsx:115-121 | the collected IDs are duplicate-free and are exactly the collaborators of some task |
| `TasksPage.NoCollaboratorIds` | task-manager/src/pages/Tasks/TasksPage.jsx:115-125 | no batch request is needed exactly when every task's collaborator list is empty |
| `TasksPage.CollectCollaboratorIds` | task-manager/src/pages/Tasks/TasksPage.jsx:115-121 | the nested loops filling the `Set` compute the distinct collaborator IDs in first-seen order |
| `TasksPage.FlattenSnoc` | task-manager/src/pages/Tasks/TasksPage.jsx:116-120 | one more task contributes its collaborator list at the end |
| `TasksPage.AddEach` | task-manager/src/pages/Tasks/TasksPage.jsx:117-119 | the inner loop adds one task's collaborators to the set |
| `TasksPage.AddOne` | task-manager/src/pages/Tasks/TasksPage.jsx:118 | adding one ID to the set keeps it the distinct IDs seen so far, in first-seen order |
| `TasksPage.UsernameMapSpec` | task-manager/src/pages/Tasks/TasksPage.jsx:131-134 | the map has a key for exactly the returned users, and a user whose ID is not repeated later maps to their username |
| `TasksPage.CollaboratorDetailsMap` | task-manager/src/pages/Tasks/TasksPage.jsx:131-134 | the `reduce` builds the ID-to-username map |
| `TasksPage.NameFor` | task-manager/src/pages/Tasks/TasksPage.jsx:142-144 | a shown name is never empty: the known username when it is non-empty; the "user not found" label for an unknown ID or an empty username |
| `TasksPage.NamesOf` | task-manager/src/pages/Tasks/TasksPage.jsx:142-144 | one name per collaborator, in order |
| `TasksPage.WithUsernames` | task-manager/src/pages/Tasks/TasksPage.jsx:140-146 | one shown task per fetched task |
| `TasksPage.WithUsernamesSpec` | task-manager/src/pages/Tasks/TasksPage.jsx:140-146 | a task without collaborators is shown as fetched; any other gains one name per collaborator with every other field kept |
| `TasksPage.WithCollaboratorEffect` | task-manager/src/pages/Tasks/TasksPage.jsx:405-419 | for any list: a full list or a repeated user leaves it unchanged, otherwise the user is appended, and with room left the user is listed afterwards |
| `TasksPage.WithCollaboratorSpec` | task-manager/src/pages/Tasks/TasksPage.jsx:405-419 | adding keeps a list of at most three users without repeated IDs that way |
| `TasksPage.WithoutCollaboratorSpec` | task-manager/src/pages/Tasks/TasksPage.jsx:421-423 | after removal no collaborator has the ID, every other collaborator stays, in order |
| `TasksPage.WithoutCollaboratorBounded` | task-manager/src/pages/Tasks/TasksPage.jsx:421-423 | removal keeps the list at most three long and free of repeated users |
| `TasksPage.WithoutCollaboratorAbsent` | task-manager/src/pages/Tasks/TasksPage.jsx:421-423 | removing an ID no collaborator has changes nothing |
| `TasksPage.AddThenRemoveCollaborator` | task-manager/src/pages/Tasks/TasksPage.jsx:405-423 | removing a collaborator just appended restores the list |
| `TasksPage.ToLower` | task-manager/src/pages/Tasks/TasksPage.jsx:426 | lower-casing keeps the length and changes exactly the upper-case letters |
| `TasksPage.FilterTasksSpec` | task-manager/src/pages/Tasks/TasksPage.jsx:425-429 | a task is shown iff its lower-cased title contains the lower-cased search term and the category filter is `all` or its category; order is kept |
| `TasksPage.FilterNothing` | task-manager/src/pages/Tasks/TasksPage.jsx:425-429 | an empty search with category `all` shows every task |
| `TasksPage.FilterIgnoresCase` | task-manager/src/pages/Tasks/TasksPage.jsx:426 | a title containing the term verbatim matches the filter |
| `TasksPage.ToLowerIdempotent` | task-manager/src/pages/Tasks/TasksPage.jsx:426 | lower-casing a lower-cased string changes nothing |
| `TasksPage.FilterCaseInsensitive` | task-manager/src/pages/Tasks/TasksPage.jsx:426 | titles and terms that differ only in letter case give the same filter answer, and a lower-cased term finds exactly what the typed term finds |
| `TasksPage.StatusColor` | task-manager/src/pages/Tasks/TasksPage.jsx:431-437 | completed is green, in progress is blue, anything else is red |
| `TasksPage.StatusText` | task-manager/src/pages/Tasks/TasksPage.jsx:439-445 | completed, in progress and, for anything else, pending labels |
| `TasksPage.StatusLabelsDistinguishKnownStatuses` | task-manager/src/pages/Tasks/TasksPage.jsx:431-445 | two different valid statuses never share a label or a colour |
| `TasksPage.CollaboratorIds` | task-manager/src/pages/Tasks/TasksPage.jsx:212 | the payload lists the collaborators' IDs, in order |
| `TasksPage.ShapeTaskData` | task-manager/src/pages/Tasks/TasksPage.jsx:205-224 | a group task carries the group and the group flag; a member task carries group, assignee and a cleared flag; a personal task carries neither |
| `TasksPage.AssignmentOf` | task-manager/src/pages/Tasks/TasksPage.jsx:323-334 | a task reads as group iff flagged with a group, as member iff not and it has an assignee and a group, and as personal otherwise |
| `TasksPage.AssignmentRoundTrip` | task-manager/src/pages/Tasks/TasksPage.jsx:205-224 | a saved payload, echoed back, reopens with the assignment type it was saved with |
| `TasksPage.TasksPage.FetchTasks` | task-manager/src/pages/Tasks/TasksPage.jsx:103-156 | without a token nothing is requested and nothing changes; a rejected task or batch request leaves the shown tasks as they were; otherwise a batch request goes out exactly when some task has collaborators, with the distinct IDs, and the shown tasks carry the resolved names (none resolved when the reply has no `users`); the other state never changes |
| `TasksPage.TasksPage.HandleAddCollaborator` | task-manager/src/pages/Tasks/TasksPage.jsx:405-419 | the list becomes the bounded, repeat-free addition; a full list or a repeated user gives the matching warning and keeps the search; success clears it |
| `TasksPage.TasksPage.HandleRemoveCollaborator` | task-manager/src/pages/Tasks/TasksPage.jsx:421-423 | the collaborators with that ID leave the list and nothing else changes |
| `TasksPage.FetchTasksBatchExample` | task-manager/src/pages/Tasks/TasksPage.jsx:115-125 | collaborators u1,u2 on one task and u2 on another give one batch request for u1,u2 |
| `TasksPage.FetchTasksNamesExample` | task-manager/src/pages/Tasks/TasksPage.jsx:140-146 | with only u1 known as "ana", the first task shows "ana" and the fallback label, the second the label |
| `GroupsPage.EntryId` | task-manager/src/pages/Groups/GroupsPage.jsx:123-125 | only a user record has an `id`, a bare ID string has none |
| `GroupsPage.NormaliseMembers` | task-manager/src/pages/Groups/GroupsPage.jsx:93-99 | the members are the response's user records when present (even empty), else the group's bare IDs, else none |
| `GroupsPage.ExcludeMembersSpec` | task-manager/src/pages/Groups/GroupsPage.jsx:122-126 | a user is offered iff the search returned it and no member entry carries its ID; order is kept |
| `GroupsPage.BareIdsExcludeNobody` | task-manager/src/pages/Groups/GroupsPage.jsx:96-126 | when the member list holds only bare IDs, no search result is left out |
| `GroupsPage.ToInt32` | task-manager/src/pages/Groups/GroupsPage.jsx:205 | the shift's 32-bit wrap-around yields a value in the signed 32-bit range, congruent modulo 2^32 |
| `GroupsPage.ColorIndex` | task-manager/src/pages/Groups/GroupsPage.jsx:207 | the colour index is always a valid position among the six colours |
| `GroupsPage.AvatarColor` | task-manager/src/pages/Groups/GroupsPage.jsx:201-208 | the hashing loop computes the string hash and picks the colour at its index, always one of the six |
| `GroupsPage.AvatarColorExamples` | task-manager/src/pages/Groups/GroupsPage.jsx:201-208 | the empty name, "a" (hash 97) and "ab" (hash 3105) get the first, second and fourth colours |
| `GroupsPage.GroupView.FetchGroupMembers` | task-manager/src/pages/Groups/GroupsPage.jsx:88-106 | the member list becomes the normalised response; a failed request leaves it alone |
| `GroupsPage.GroupView.HandleSearch` | task-manager/src/pages/Groups/GroupsPage.jsx:109-143 | a blank address sends nothing; otherwise the address is sent, a failure keeps the results, and a reply sets them to the non-member users (none when it has no users) |
| `GroupsPage.GroupView.HandleAddToGroup` | task-manager/src/pages/Groups/GroupsPage.jsx:146-169 | nothing is sent without a selected group; otherwise the group and user are sent, and on success the members are fetched again and the search is cleared |

## Findings

| source | as written | input that shows it | evidently intended | confidence | as-written member | corrected member |
|---|---|---|---|---|---|---|
| backend/internal/services/group.go:171-174 | the user's `groups` field is read with a type assertion to `[]string`. A document read returns arrays as `[]interface{}`, so the assertion fails and the list counts as empty. The write at line 186 then stores only the new group | a user document read back with `groups` = ["g1"] joins "g2": the document ends up with `groups` = ["g2"] | append "g2" to the stored ["g1"] | likely; not executed | `GroupServices.JoinGroupDocAsWritten`, `GroupServices.StoredGroupsMisreadAsWritten`, `GroupServices.GroupsMisreadExample` | `GroupServices.JoinGroupDoc`, `GroupServices.JoinGroupDocSpec` |
| backend/internal/services/group.go:250-251 | the same assertion on removal fails on a stored array, so the update is skipped | a user document read back with `groups` = ["g1"] leaves "g1": `groups` still lists "g1" | filter "g1" out of the stored list | likely; not executed | `GroupServices.LeaveGroupDocAsWritten`, `GroupServices.StoredGroupsMisreadAsWritten`, `GroupServices.GroupsMisreadExample` | `GroupServices.LeaveGroupDoc`, `GroupServices.LeaveGroupDocSpec` |

The service methods `AddMemberToGroup` and `RemoveMemberFromGroup` read the `groups` field through the corrected `GroupsOf`. A document value a read returns as an array is `Array` in the model; a `[]string` the service itself puts in a document is `StrList`.

## Left out

- Time: `created_at` and `updated_at` are opaque timestamps passed in by the caller. The hours-to-nanoseconds conversion of `time_until_finish` on the tasks page is floating-point arithmetic and is not modelled. `time_until_finish` is an integer field.
- Authentication: JWT, bcrypt hashing, and the 401 answers for a missing user ID in the request context are not modelled.
- Request binding: JSON parsing and its 400 answers are not modelled. Requests arrive already decoded; an absent JSON key is `None`, or the zero value where the Go field is not a pointer.
- Firestore failures: errors other than a missing document and the ignored write of the user's `groups` list are not modelled, including the 500 answers for failed reads and writes. Writes that the code checks are taken to succeed.
- `GetUserTasks` (backend/api/handlers/task.go:93-152): the Firestore queries that gather owned and collaborated tasks are not modelled. Its de-duplication step is (`TaskHandlers.RemoveDuplicateTasks`).
- `GetUserGroups` and `GetAllGroupsHandler`: query plumbing with no decision of their own.
- Other pages: `markTaskAsCompleted`, `handleRemoveFromGroup`, `fetchCollaborators` and the tasks page's own `fetchGroupMembers` are not modelled. They send a request and store the reply the way the modelled handlers do. `EditTaskPage` is not modelled.
- `GroupModel.Group.AddMember`, `GroupModel.Group.RemoveMember`: return the updated group as a new value instead of updating the receiver in place through a pointer. No caller in the modelled code keeps an alias to the old value.
- `UserModel.IsValidPassword`, `UserModel.Classify`: Unicode's upper-case, lower-case, number, punctuation and symbol categories are modelled for ASCII only. Other letters and digits fall in no class.
- `TasksPage.ToLower`: `toLowerCase` is modelled for ASCII letters only.
- `GroupsPage.AvatarColor`: characters are Dafny characters, not JavaScript's UTF-16 code units, so a character outside the Basic Multilingual Plane hashes differently. The hash's additions are exact integers and are not rounded to doubles: for names long enough to exceed 2^53, JavaScript loses precision the model does not.
- `GroupServices.GroupService.GetGroupMembersDetails`: a user document without string `id`, `username` and `email` fields makes the Go code panic. The model requires every stored user document to have them (`GroupService.Valid`).
- Go's distinction between a nil and an empty slice is kept only where the code reacts to it: the `isNil` result of `GetGroupMembersDetails` and the omitted `members` key of `GetGroupHandler`.
- The `is_group_task` flag is not modelled on the backend: the Go `Task` struct and the request types have no such field, so the server drops the flag. `TasksPage.AssignmentRoundTrip` states the round trip on the payload the page builds. A task fetched back from the server reopens a group assignment as personal.
- Group creation never validates: neither `CreateGroupHandler` nor `CreateGroup` calls `Group.Validate`. A requester already listed in the incoming members is appended a second time; the model does exactly that.
- UI feedback: the pages' `loading` flags and their `message` pop-ups are not modelled; they change no modelled state.
