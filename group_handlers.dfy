/** The group endpoints (backend/api/handlers/group.go): who may see a group, add to it and
    remove from it, and how a new group is initialised. Each handler works on the service's
    collections; every service error becomes a 500 as in the source. */
module GroupHandlers {
  import opened Common
  import opened Seqs
  import opened GroupModel
  import opened UserModel
  import opened GroupServices

  /** The body of a successful `GetGroupHandler` response; `members` is absent when the details
      list is nil. */
  datatype GroupResponse = GroupResponse(group: Group, members: Option<seq<User>>)

  /** Only members may see a group; being its creator is not enough. */
  predicate CanView(g: Group, requester: string)
  {
    requester in g.members
  }

  /** The creator and every member may add members. */
  predicate CanAddMembers(g: Group, requester: string)
  {
    g.creatorId == requester || requester in g.members
  }

  /** The creator may remove anyone, anyone may remove themself. */
  predicate CanRemove(g: Group, requester: string, target: string)
  {
    g.creatorId == requester || target == requester
  }

  /** A member viewing a group whose own user document exists always gets the members list. */
  lemma ViewerSeesMembers(g: Group, requester: string, users: map<string, Document>)
    requires forall id :: id in users ==> IsUserDoc(users[id])
    requires CanView(g, requester) && requester in users
    ensures MemberDetails(g.members, users) != []
  {
    MemberDetailsSpec(g.members, users);
    var k :| 0 <= k < |g.members| && g.members[k] == requester;
    assert g.members[k] in users;
  }

  /** Whoever passes the remove check, the creator stays: a creator removing themself passes the
      check and is then refused by the service, and any other removal keeps the creator. */
  lemma CreatorNeverRemoved(g: Group, requester: string, target: string)
    requires CanRemove(g, requester, target) && g.creatorId in g.members
    ensures target == g.creatorId || g.creatorId in RemoveAll(g.members, target)
  {
    if target != g.creatorId {
      RemovalKeepsCreator(g, target);
    }
  }

  class GroupHandler {
    const groupService: GroupService

    constructor (s: GroupService)
      ensures groupService == s
    {
      groupService := s;
    }

    /** `CreateGroupHandler`: the requester becomes the creator and is appended to the incoming
        members (a nil list counting as empty), then the service stores the group. */
    method CreateGroupHandler(group: Group, requester: string, freshId: string, now: Timestamp)
      returns (status: HttpStatus, created: Group)
      modifies groupService
      ensures status == Created
      ensures created.creatorId == requester && created.members == group.members + [requester]
      ensures created.id == (if group.id == "" then freshId else group.id)
      ensures created == group.(id := created.id, creatorId := requester, members := group.members + [requester], createdAt := now)
      ensures CanView(created, requester) && CanAddMembers(created, requester)
      ensures groupService.groups == old(groupService.groups)[created.id := created]
      ensures groupService.users == old(groupService.users)
    {
      var g := group.(creatorId := requester);
      g := g.(members := g.members + [requester]);
      created := groupService.CreateGroup(g, freshId, now);
      assert created.members[|group.members|] == requester;
      status := Created;
    }

    /** `GetGroupHandler`: 500 when the lookup fails, 403 unless the requester is a member,
        otherwise the group with the member details when that list is not nil. */
    method GetGroupHandler(groupID: string, requester: string)
      returns (status: HttpStatus, response: Option<GroupResponse>)
      requires groupService.Valid()
      ensures groupID !in groupService.groups ==> status == InternalServerError && response == None
      ensures groupID in groupService.groups && !CanView(groupService.groups[groupID], requester) ==>
        status == Forbidden && response == None
      ensures groupID in groupService.groups && CanView(groupService.groups[groupID], requester) ==>
        var g := groupService.groups[groupID];
        var details := MemberDetails(g.members, groupService.users);
        status == OK && response == Some(GroupResponse(g, if details == [] then None else Some(details)))
    {
      var found := groupService.GetGroupByID(groupID);
      if found.None? {
        return InternalServerError, None;
      }
      var group := found.value;
      var isMember := false;
      for i := 0 to |group.members|
        invariant isMember <==> requester in group.members[..i]
      {
        if group.members[i] == requester {
          isMember := true;
          break;
        }
      }
      assert group.members[..|group.members|] == group.members;
      if !isMember {
        return Forbidden, None;
      }
      var membersList, isNil := groupService.GetGroupMembersDetails(group.members);
      var members := if isNil then None else Some(membersList);
      return OK, Some(GroupResponse(group, members));
    }

    /** `AddMemberHandler`: 500 when the lookup fails, 403 unless the requester is the creator or
        a member, otherwise the service's `AddMemberToGroup`, whose refusals become 500. */
    method AddMemberHandler(groupID: string, requester: string, userID: string, userWriteOk: bool)
      returns (status: HttpStatus)
      requires groupService.Valid()
      modifies groupService
      ensures groupService.Valid()
      ensures groupID !in old(groupService.groups) ==>
        status == InternalServerError && groupService.groups == old(groupService.groups) && groupService.users == old(groupService.users)
      ensures groupID in old(groupService.groups) && !CanAddMembers(old(groupService.groups)[groupID], requester) ==>
        status == Forbidden && groupService.groups == old(groupService.groups) && groupService.users == old(groupService.users)
      ensures groupID in old(groupService.groups) && CanAddMembers(old(groupService.groups)[groupID], requester) ==>
        var g := old(groupService.groups)[groupID];
        if userID in old(groupService.users) && userID !in g.members then
          status == OK &&
          groupService.groups == old(groupService.groups)[groupID := g.(members := g.members + [userID])] &&
          groupService.users == (if userWriteOk then old(groupService.users)[userID := JoinGroupDoc(old(groupService.users)[userID], groupID)]
                                 else old(groupService.users))
        else
          status == InternalServerError && groupService.groups == old(groupService.groups) && groupService.users == old(groupService.users)
    {
      var found := groupService.GetGroupByID(groupID);
      if found.None? {
        return InternalServerError;
      }
      var group := found.value;
      var isAuthorized := group.creatorId == requester;
      if !isAuthorized {
        for i := 0 to |group.members|
          invariant isAuthorized <==> requester in group.members[..i]
        {
          if group.members[i] == requester {
            isAuthorized := true;
            break;
          }
        }
        assert group.members[..|group.members|] == group.members;
      }
      if !isAuthorized {
        return Forbidden;
      }
      var err := groupService.AddMemberToGroup(groupID, userID, userWriteOk);
      if err.Some? {
        return InternalServerError;
      }
      return OK;
    }

    /** `RemoveMemberHandler`: 500 when the lookup fails, 403 unless the requester is the creator
        or removes themself, otherwise the service's `RemoveMemberFromGroup`, whose refusals
        (removing the creator, removing a non-member) become 500. */
    method RemoveMemberHandler(groupID: string, requester: string, userID: string, userWriteOk: bool)
      returns (status: HttpStatus)
      requires groupService.Valid()
      modifies groupService
      ensures groupService.Valid()
      ensures groupID !in old(groupService.groups) ==>
        status == InternalServerError && groupService.groups == old(groupService.groups) && groupService.users == old(groupService.users)
      ensures groupID in old(groupService.groups) && !CanRemove(old(groupService.groups)[groupID], requester, userID) ==>
        status == Forbidden && groupService.groups == old(groupService.groups) && groupService.users == old(groupService.users)
      ensures groupID in old(groupService.groups) && CanRemove(old(groupService.groups)[groupID], requester, userID) ==>
        var g := old(groupService.groups)[groupID];
        if userID != g.creatorId && userID in g.members then
          status == OK &&
          groupService.groups == old(groupService.groups)[groupID := g.(members := RemoveAll(g.members, userID))] &&
          groupService.users == (if userWriteOk && userID in old(groupService.users)
                                 then old(groupService.users)[userID := LeaveGroupDoc(old(groupService.users)[userID], groupID)]
                                 else old(groupService.users))
        else
          status == InternalServerError && groupService.groups == old(groupService.groups) && groupService.users == old(groupService.users)
    {
      var found := groupService.GetGroupByID(groupID);
      if found.None? {
        return InternalServerError;
      }
      var group := found.value;
      var isAuthorized := group.creatorId == requester || userID == requester;
      if !isAuthorized {
        return Forbidden;
      }
      var err := groupService.RemoveMemberFromGroup(groupID, userID, userWriteOk);
      if err.Some? {
        return InternalServerError;
      }
      return OK;
    }
  }
}
