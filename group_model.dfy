/** The group record and its membership helpers (backend/internal/models/group.go). */
module GroupModel {
  import opened Common
  import opened Seqs

  const MaxNameBytes: nat := 100
  const MaxDescriptionBytes: nat := 500

  /** A group document. `members` holds user IDs; a nil slice is the empty sequence. */
  datatype Group = Group(
    id: string,
    creatorId: string,
    name: string,
    description: string,
    members: seq<string>,
    createdAt: Timestamp,
    updatedAt: Timestamp)
  {
    /** A creator, a name and at least one member are present, and the name and the
        description fit in 100 and 500 bytes of UTF-8. */
    function Validate(): (ok: bool)
      ensures ok ==> creatorId != "" && name != "" && |members| > 0
      ensures ok ==> |name| <= MaxNameBytes && |description| <= MaxDescriptionBytes
      ensures ok <==> creatorId != "" && name != "" && members != []
                      && ByteLen(name) <= MaxNameBytes && ByteLen(description) <= MaxDescriptionBytes
    {
      if creatorId == "" || name == "" || |members| == 0 then false
      else if ByteLen(name) > MaxNameBytes || ByteLen(description) > MaxDescriptionBytes then false
      else true
    }

    /** The Go method scans the members and appends `userID` only when no member equals it;
        the receiver is updated in place, here the updated record is returned. */
    method AddMember(userID: string) returns (g: Group)
      ensures g == this.(members := Joined(members, userID))
    {
      var i := 0;
      while i < |members|
        invariant 0 <= i <= |members|
        invariant userID !in members[..i]
      {
        if members[i] == userID {
          return this;
        }
        i := i + 1;
      }
      assert members[..i] == members;
      g := this.(members := members + [userID]);
    }

    /** The Go method cuts out the first member equal to `userID` and stops; the receiver is
        updated in place, here the updated record is returned. */
    method RemoveMember(userID: string) returns (g: Group)
      ensures g == this.(members := RemoveFirst(members, userID))
    {
      var i := 0;
      while i < |members|
        invariant 0 <= i <= |members|
        invariant userID !in members[..i]
      {
        if members[i] == userID {
          assert FirstIndex(members, userID) == i;
          return this.(members := members[..i] + members[i + 1..]);
        }
        i := i + 1;
      }
      assert members[..i] == members;
      g := this;
    }
  }

  /** The member list after `AddMember`: unchanged if `u` is already there, else `u` appended. */
  function Joined(members: seq<string>, u: string): (r: seq<string>)
  {
    if u in members then members else members + [u]
  }

  /** Adding an existing member changes nothing; adding a new one appends it at the end,
      growing the list by one and keeping the earlier order. */
  lemma JoinedSpec(members: seq<string>, u: string)
    ensures u in Joined(members, u)
    ensures u in members ==> Joined(members, u) == members
    ensures u !in members ==> |Joined(members, u)| == |members| + 1
                              && Joined(members, u)[..|members|] == members
                              && Joined(members, u)[|members|] == u
  {
  }

  /** Adding the same member twice is adding it once, and a list without duplicates keeps none. */
  lemma JoinedIdempotentAndNoDups(members: seq<string>, u: string)
    ensures Joined(Joined(members, u), u) == Joined(members, u)
    ensures NoDups(members) ==> NoDups(Joined(members, u))
  {
    if NoDups(members) && u !in members {
      NoDupsSnoc(members, u);
    }
  }

  /** Removing an absent user changes nothing; otherwise exactly the first occurrence goes
      and the other members keep their relative order. */
  lemma RemoveMemberSpec(g: Group, u: string)
    ensures u !in g.members ==> RemoveFirst(g.members, u) == g.members
    ensures u in g.members ==>
      |RemoveFirst(g.members, u)| == |g.members| - 1 &&
      exists i :: 0 <= i < |g.members| && g.members[i] == u && u !in g.members[..i] &&
                  RemoveFirst(g.members, u) == g.members[..i] + g.members[i + 1..]
    ensures multiset(RemoveFirst(g.members, u)) == multiset(g.members) - multiset{u}
  {
    RemoveFirstSpec(g.members, u);
    if u in g.members {
      var i := FirstIndex(g.members, u);
      assert u !in g.members[..i];
    }
  }
}
