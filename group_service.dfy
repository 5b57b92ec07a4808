/** The group service (backend/internal/services/group.go). The two Firestore collections
    it reads and writes are the fields `groups` (group ID to group) and `users` (user ID to
    the raw user document); a generated ID, the clock and the outcome of the one write whose
    failure the service ignores are parameters. */
module GroupServices {
  import opened Common
  import opened Seqs
  import opened GroupModel
  import opened UserModel

  /** The errors the service reports. A failed group lookup is `GroupNotFound`. */
  datatype ServiceError = GroupNotFound | UserNotFound | AlreadyMember | CreatorCannotBeRemoved | NotAMember

  /** A user document from which `GetGroupMembersDetails` can read a member: its `id`,
      `username` and `email` hold strings (the Go code's type assertions panic otherwise). */
  predicate IsUserDoc(d: Document)
  {
    "id" in d && d["id"].Str? && "username" in d && d["username"].Str? && "email" in d && d["email"].Str?
  }

  /** The strings among the elements of a decoded array, in order. */
  function StringsOf(vs: seq<Value>): (r: seq<string>)
    ensures forall x :: x in r <==> Str(x) in vs
  {
    if vs == [] then []
    else
      var rest := StringsOf(vs[..|vs| - 1]);
      assert vs == vs[..|vs| - 1] + [vs[|vs| - 1]];
      match vs[|vs| - 1]
      case Str(x) => rest + [x]
      case _ => rest
  }

  /** Reading an array keeps its order: one more element adds its string, if any, at the end. */
  lemma StringsOfSnoc(vs: seq<Value>, v: Value)
    ensures StringsOf(vs + [v]) == StringsOf(vs) + (if v.Str? then [v.s] else [])
  {
    assert (vs + [v])[..|vs + [v]| - 1] == vs;
  }

  /** The user document holds a `groups` list, as written by the service or as read back. */
  predicate HasGroupsList(d: Document)
  {
    "groups" in d && (d["groups"].StrList? || d["groups"].Array?)
  }

  /** The user's `groups` list read as the service means to read it: the IDs in the list, and
      empty when the field is missing or holds no list. */
  function GroupsOf(d: Document): seq<string>
  {
    if "groups" in d && d["groups"].StrList? then d["groups"].items
    else if "groups" in d && d["groups"].Array? then StringsOf(d["groups"].elems)
    else []
  }

  /** The user document after joining `groupID`: the ID appended to `groups` unless it is already listed. */
  function JoinGroupDoc(d: Document, groupID: string): Document
  {
    var gs := GroupsOf(d);
    if groupID in gs then d else d["groups" := StrList(gs + [groupID])]
  }

  /** The user document after leaving `groupID`: every occurrence filtered out of `groups`, and
      the document left alone when it holds no list there. */
  function LeaveGroupDoc(d: Document, groupID: string): Document
  {
    if HasGroupsList(d) then d["groups" := StrList(RemoveAll(GroupsOf(d), groupID))] else d
  }

  /** The `groups` field as the service's type assertion to `[]string` reads it: a list only
      when the value is a Go `[]string`, which an array read back from a document never is. */
  function AssertedGroups(d: Document): (r: Option<seq<string>>)
    ensures r.Some? <==> "groups" in d && d["groups"].StrList?
  {
    if "groups" in d && d["groups"].StrList? then Some(d["groups"].items) else None
  }

  /** Joining as written: a failed assertion counts as an empty list. */
  function JoinGroupDocAsWritten(d: Document, groupID: string): Document
  {
    var gs := match AssertedGroups(d) case Some(l) => l case None => [];
    if groupID in gs then d else d["groups" := StrList(gs + [groupID])]
  }

  /** Leaving as written: a failed assertion skips the update. */
  function LeaveGroupDocAsWritten(d: Document, groupID: string): Document
  {
    match AssertedGroups(d)
    case Some(gs) => d["groups" := StrList(RemoveAll(gs, groupID))]
    case None => d
  }

  /** On a user document read back from the store, which holds `groups` as an array, the code as
      written replaces every listed group by the joined one, and leaves a left group listed. */
  lemma StoredGroupsMisreadAsWritten(d: Document, groupID: string)
    requires "groups" in d && d["groups"].Array?
    ensures GroupsOf(JoinGroupDocAsWritten(d, groupID)) == [groupID]
    ensures LeaveGroupDocAsWritten(d, groupID) == d
    ensures groupID in GroupsOf(d) ==> groupID in GroupsOf(LeaveGroupDocAsWritten(d, groupID))
  {
  }

  /** A user in group "g1" joins "g2" and then leaves "g1": as written the document ends up
      listing no group although the user still belongs to "g2"; read as intended it lists "g2". */
  lemma GroupsMisreadExample()
    ensures var d := map["groups" := Array([Str("g1")])];
      GroupsOf(d) == ["g1"] &&
      GroupsOf(JoinGroupDocAsWritten(d, "g2")) == ["g2"] &&
      GroupsOf(JoinGroupDoc(d, "g2")) == ["g1", "g2"] &&
      GroupsOf(LeaveGroupDocAsWritten(d, "g1")) == ["g1"] &&
      GroupsOf(LeaveGroupDoc(d, "g1")) == []
  {
    var d: Document := map["groups" := Array([Str("g1")])];
    assert [Str("g1")][..0] == [];
    assert GroupsOf(d) == ["g1"];
    assert RemoveAll(["g1"], "g1") == [] by {
      assert ["g1"][..0] == [];
    }
  }

  /** Joining lists the group exactly once more at most, touches no other field, and keeps a
      duplicate-free list duplicate-free. */
  lemma JoinGroupDocSpec(d: Document, groupID: string)
    ensures groupID in GroupsOf(JoinGroupDoc(d, groupID))
    ensures groupID in GroupsOf(d) ==> JoinGroupDoc(d, groupID) == d
    ensures groupID !in GroupsOf(d) ==> GroupsOf(JoinGroupDoc(d, groupID)) == GroupsOf(d) + [groupID]
    ensures NoDups(GroupsOf(d)) ==> NoDups(GroupsOf(JoinGroupDoc(d, groupID)))
    ensures forall k :: k != "groups" ==> (k in d <==> k in JoinGroupDoc(d, groupID))
    ensures forall k :: k != "groups" && k in d ==> JoinGroupDoc(d, groupID)[k] == d[k]
  {
    if groupID !in GroupsOf(d) && NoDups(GroupsOf(d)) {
      NoDupsSnoc(GroupsOf(d), groupID);
    }
  }

  /** Leaving removes the group from the list, keeps every other listed group in order, and
      touches no other field. */
  lemma LeaveGroupDocSpec(d: Document, groupID: string)
    ensures groupID !in GroupsOf(LeaveGroupDoc(d, groupID))
    ensures forall g :: g != groupID && g in GroupsOf(d) ==> g in GroupsOf(LeaveGroupDoc(d, groupID))
    ensures IsSubsequence(GroupsOf(LeaveGroupDoc(d, groupID)), GroupsOf(d))
    ensures forall k :: k != "groups" ==> (k in d <==> k in LeaveGroupDoc(d, groupID))
    ensures forall k :: k != "groups" && k in d ==> LeaveGroupDoc(d, groupID)[k] == d[k]
  {
    RemoveAllSpec(GroupsOf(d), groupID);
  }

  /** Leaving a group one has just joined gives back the list one had before. */
  lemma JoinThenLeave(d: Document, groupID: string)
    requires groupID !in GroupsOf(d)
    ensures GroupsOf(LeaveGroupDoc(JoinGroupDoc(d, groupID), groupID)) == GroupsOf(d)
  {
    var gs := GroupsOf(d);
    RemoveAllSpec(gs, groupID);
    assert (gs + [groupID])[..|gs|] == gs;
  }

  /** Removing a member who was just appended gives back the earlier member list. */
  lemma AddThenRemoveMember(members: seq<string>, userID: string)
    requires userID !in members
    ensures RemoveAll(members + [userID], userID) == members
  {
    RemoveAllSpec(members, userID);
    assert (members + [userID])[..|members|] == members;
  }

  /** Removing anyone but the creator leaves the creator among the members. */
  lemma RemovalKeepsCreator(g: Group, userID: string)
    requires userID != g.creatorId && g.creatorId in g.members
    ensures g.creatorId in RemoveAll(g.members, userID)
  {
    RemoveAllSpec(g.members, userID);
  }

  /** The role reported for a member: the stored one when it is a non-empty string, else "user". */
  function RoleOf(d: Document): (role: string)
    ensures role != ""
    ensures "role" in d && d["role"].Str? && d["role"].s != "" ==> role == d["role"].s
    ensures !("role" in d && d["role"].Str? && d["role"].s != "") ==> role == "user"
  {
    if "role" in d && d["role"].Str? && d["role"].s != "" then d["role"].s else "user"
  }

  /** The member record built from a user document: identity, name, e-mail and role; the
      password and creation time stay at their zero values. */
  function DetailOf(d: Document): (u: User)
    requires IsUserDoc(d)
    ensures u.id == d["id"].s && u.username == d["username"].s && u.email == d["email"].s
    ensures u.password == "" && u.role == RoleOf(d)
  {
    User(d["id"].s, d["username"].s, d["email"].s, "", 0, RoleOf(d))
  }

  /** The details of the listed members, in list order, skipping IDs with no user document. */
  function MemberDetails(ids: seq<string>, users: map<string, Document>): seq<User>
    requires forall id :: id in users ==> IsUserDoc(users[id])
  {
    if ids == [] then []
    else
      var rest := MemberDetails(ids[..|ids| - 1], users);
      var id := ids[|ids| - 1];
      if id in users then rest + [DetailOf(users[id])] else rest
  }

  /** At most one record per listed ID, every role filled in, one record per ID when all are
      known, and none exactly when no listed ID is known. */
  lemma {:induction false} MemberDetailsSpec(ids: seq<string>, users: map<string, Document>)
    requires forall id :: id in users ==> IsUserDoc(users[id])
    ensures |MemberDetails(ids, users)| <= |ids|
    ensures forall u :: u in MemberDetails(ids, users) ==> u.role != ""
    ensures (forall k :: 0 <= k < |ids| ==> ids[k] in users) ==> |MemberDetails(ids, users)| == |ids|
    ensures MemberDetails(ids, users) == [] <==> forall k :: 0 <= k < |ids| ==> ids[k] !in users
  {
    if ids != [] {
      var p := ids[..|ids| - 1];
      MemberDetailsSpec(p, users);
      assert forall k :: 0 <= k < |p| ==> p[k] == ids[k];
    }
  }

  class GroupService {
    var groups: map<string, Group>
    var users: map<string, Document>

    /** Every stored user document can be read as a member. */
    predicate Valid()
      reads this
    {
      forall id :: id in users ==> IsUserDoc(users[id])
    }

    constructor (users0: map<string, Document>)
      requires forall id :: id in users0 ==> IsUserDoc(users0[id])
      ensures Valid() && groups == map[] && users == users0
    {
      groups := map[];
      users := users0;
    }

    /** `CreateGroup`: an empty ID is replaced by `freshId`, `created_at` is set to `now`, and the
        group is stored under its ID. No validation takes place. */
    method CreateGroup(group: Group, freshId: string, now: Timestamp) returns (stored: Group)
      modifies this
      ensures stored.id == (if group.id == "" then freshId else group.id)
      ensures stored == group.(id := stored.id, createdAt := now)
      ensures groups == old(groups)[stored.id := stored] && users == old(users)
    {
      stored := group;
      if stored.id == "" {
        stored := stored.(id := freshId);
      }
      stored := stored.(createdAt := now);
      groups := groups[stored.id := stored];
    }

    /** `GetGroupByID`: the stored group, or `None` when the lookup fails. */
    method GetGroupByID(groupID: string) returns (group: Option<Group>)
      ensures group.Some? <==> groupID in groups
      ensures group.Some? ==> group.value == groups[groupID]
    {
      if groupID !in groups {
        return None;
      }
      return Some(groups[groupID]);
    }

    /** `GetGroupMembersDetails`: the member records of `memberIDs`, skipping IDs whose user
        document is missing. `isNil` tells a nil slice (some IDs, none found) from the empty one
        returned for an empty ID list. */
    method GetGroupMembersDetails(memberIDs: seq<string>) returns (members: seq<User>, isNil: bool)
      requires Valid()
      ensures members == MemberDetails(memberIDs, users)
      ensures isNil <==> |memberIDs| > 0 && members == []
    {
      if |memberIDs| == 0 {
        return [], false;
      }
      members := [];
      for i := 0 to |memberIDs|
        invariant members == MemberDetails(memberIDs[..i], users)
      {
        assert memberIDs[..i + 1][..i] == memberIDs[..i];
        var memberID := memberIDs[i];
        if memberID !in users {
          continue;
        }
        var userData := users[memberID];
        var role := "";
        if "role" in userData && userData["role"].Str? {
          role := userData["role"].s;
        }
        if role == "" {
          role := "user";
        }
        members := members + [User(userData["id"].s, userData["username"].s, userData["email"].s, "", 0, role)];
      }
      assert memberIDs[..|memberIDs|] == memberIDs;
      isNil := members == [];
    }

    /** `AddMemberToGroup`: fails when the group or the user is unknown or the user already
        belongs to the group, changing nothing; otherwise appends the user to the members and,
        unless already listed, the group to the user's `groups` list. A failed write of the user
        document (`userWriteOk` false) does not fail the call. */
    method AddMemberToGroup(groupID: string, userID: string, userWriteOk: bool) returns (err: Option<ServiceError>)
      requires Valid()
      modifies this
      ensures Valid()
      ensures groupID !in old(groups) ==>
        err == Some(GroupNotFound) && groups == old(groups) && users == old(users)
      ensures groupID in old(groups) && userID !in old(users) ==>
        err == Some(UserNotFound) && groups == old(groups) && users == old(users)
      ensures groupID in old(groups) && userID in old(users) && userID in old(groups)[groupID].members ==>
        err == Some(AlreadyMember) && groups == old(groups) && users == old(users)
      ensures groupID in old(groups) && userID in old(users) && userID !in old(groups)[groupID].members ==>
        err == None &&
        groups == old(groups)[groupID := old(groups)[groupID].(members := old(groups)[groupID].members + [userID])] &&
        users == (if userWriteOk then old(users)[userID := JoinGroupDoc(old(users)[userID], groupID)] else old(users))
    {
      if groupID !in groups {
        return Some(GroupNotFound);
      }
      var group := groups[groupID];
      if userID !in users {
        return Some(UserNotFound);
      }
      var userDoc := users[userID];
      for i := 0 to |group.members|
        invariant userID !in group.members[..i]
      {
        if group.members[i] == userID {
          return Some(AlreadyMember);
        }
      }
      assert group.members[..|group.members|] == group.members;
      groups := groups[groupID := group.(members := group.members + [userID])];

      var userGroups := GroupsOf(userDoc);
      var groupExists := false;
      for i := 0 to |userGroups|
        invariant groupExists <==> groupID in userGroups[..i]
      {
        if userGroups[i] == groupID {
          groupExists := true;
          break;
        }
      }
      assert userGroups[..|userGroups|] == userGroups;
      if !groupExists && userWriteOk {
        users := users[userID := userDoc["groups" := StrList(userGroups + [groupID])]];
      }
      JoinGroupDocSpec(userDoc, groupID);
      return None;
    }

    /** `RemoveMemberFromGroup`: fails when the group is unknown, when the user is its creator, or
        when the user is not a member, changing nothing; otherwise filters every occurrence of the
        user out of the members and, when the user document holds a `groups` list and its write
        succeeds, the group out of that list. */
    method RemoveMemberFromGroup(groupID: string, userID: string, userWriteOk: bool) returns (err: Option<ServiceError>)
      requires Valid()
      modifies this
      ensures Valid()
      ensures groupID !in old(groups) ==>
        err == Some(GroupNotFound) && groups == old(groups) && users == old(users)
      ensures groupID in old(groups) && old(groups)[groupID].creatorId == userID ==>
        err == Some(CreatorCannotBeRemoved) && groups == old(groups) && users == old(users)
      ensures groupID in old(groups) && old(groups)[groupID].creatorId != userID && userID !in old(groups)[groupID].members ==>
        err == Some(NotAMember) && groups == old(groups) && users == old(users)
      ensures groupID in old(groups) && old(groups)[groupID].creatorId != userID && userID in old(groups)[groupID].members ==>
        err == None &&
        groups == old(groups)[groupID := old(groups)[groupID].(members := RemoveAll(old(groups)[groupID].members, userID))] &&
        users == (if userWriteOk && userID in old(users) then old(users)[userID := LeaveGroupDoc(old(users)[userID], groupID)] else old(users))
    {
      if groupID !in groups {
        return Some(GroupNotFound);
      }
      var group := groups[groupID];
      if group.creatorId == userID {
        return Some(CreatorCannotBeRemoved);
      }
      var newMembers: seq<string> := [];
      var memberFound := false;
      for i := 0 to |group.members|
        invariant newMembers == RemoveAll(group.members[..i], userID)
        invariant memberFound <==> userID in group.members[..i]
      {
        assert group.members[..i + 1][..i] == group.members[..i];
        if group.members[i] != userID {
          newMembers := newMembers + [group.members[i]];
        } else {
          memberFound := true;
        }
      }
      assert group.members[..|group.members|] == group.members;
      if !memberFound {
        return Some(NotAMember);
      }
      groups := groups[groupID := group.(members := newMembers)];

      if userID in users {
        var userData := users[userID];
        if HasGroupsList(userData) {
          var userGroups := GroupsOf(userData);
          var newUserGroups: seq<string> := [];
          for i := 0 to |userGroups|
            invariant newUserGroups == RemoveAll(userGroups[..i], groupID)
          {
            assert userGroups[..i + 1][..i] == userGroups[..i];
            if userGroups[i] != groupID {
              newUserGroups := newUserGroups + [userGroups[i]];
            }
          }
          assert userGroups[..|userGroups|] == userGroups;
          if userWriteOk {
            users := users[userID := userData["groups" := StrList(newUserGroups)]];
          }
        }
      }
      return None;
    }
  }
}
