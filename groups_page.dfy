/** The data shaping of the groups page (task-manager/src/pages/Groups/GroupsPage.jsx): reading
    the members out of a group response, searching users to invite while leaving out current
    members, adding a user to the selected group, and the avatar colour of a name. The component
    state is the class `GroupView`; server replies are parameters. */
module GroupsPage {
  import opened Common
  import opened Seqs

  // ---------------------------------------------------------------- members

  /** An entry of the page's member list: a user record from the response's `members`, or a bare
      ID from `group.members`. Only a user record has an `id` property. */
  datatype MemberEntry = Detailed(user: UserRef) | BareId(raw: string)

  /** The `id` property of an entry; a bare ID string has none. */
  function EntryId(e: MemberEntry): (r: Option<string>)
    ensures r.Some? <==> e.Detailed?
  {
    match e
    case Detailed(u) => Some(u.id)
    case BareId(_) => None
  }

  /** The JSON body of `GET /groups/{id}` as the page reads it; an absent or null key is `None`. */
  datatype GroupBody = GroupBody(members: Option<seq<string>>)
  datatype ResponseBody = ResponseBody(members: Option<seq<UserRef>>, group: Option<GroupBody>)

  /** Member normalisation: `data.members` when present (an empty array is truthy), else
      `data.group.members` as bare IDs, else nothing. */
  function NormaliseMembers(data: Option<ResponseBody>): (r: seq<MemberEntry>)
    ensures data.Some? && data.value.members.Some? ==>
      |r| == |data.value.members.value| && forall i :: 0 <= i < |r| ==> r[i] == Detailed(data.value.members.value[i])
    ensures !(data.Some? && data.value.members.Some?) && data.Some? && data.value.group.Some? && data.value.group.value.members.Some? ==>
      |r| == |data.value.group.value.members.value| && forall i :: 0 <= i < |r| ==> r[i] == BareId(data.value.group.value.members.value[i])
    ensures data.None? ==> r == []
  {
    if data.Some? && data.value.members.Some? then
      var ms := data.value.members.value;
      seq(|ms|, i requires 0 <= i < |ms| => Detailed(ms[i]))
    else if data.Some? && data.value.group.Some? && data.value.group.value.members.Some? then
      var ids := data.value.group.value.members.value;
      seq(|ids|, i requires 0 <= i < |ids| => BareId(ids[i]))
    else []
  }

  // ---------------------------------------------------------------- search

  /** Some member entry carries the user's ID (the `some` test). */
  predicate IsListedMember(members: seq<MemberEntry>, id: string)
  {
    exists k :: 0 <= k < |members| && EntryId(members[k]) == Some(id)
  }

  /** The search results with every user that matches a member entry left out, in order. */
  function ExcludeMembers(users: seq<UserRef>, members: seq<MemberEntry>): seq<UserRef>
  {
    if users == [] then []
    else
      var rest := ExcludeMembers(users[..|users| - 1], members);
      var u := users[|users| - 1];
      if !IsListedMember(members, u.id) then rest + [u] else rest
  }

  /** The results are exactly the returned users that are not listed members, in their order. */
  lemma {:induction false} ExcludeMembersSpec(users: seq<UserRef>, members: seq<MemberEntry>)
    ensures forall u :: u in ExcludeMembers(users, members) <==> u in users && !IsListedMember(members, u.id)
    ensures IsSubsequence(ExcludeMembers(users, members), users)
  {
    if users != [] {
      var p, last := users[..|users| - 1], users[|users| - 1];
      assert p + [last] == users;
      ExcludeMembersSpec(p, members);
      SubsequenceOfSnoc(ExcludeMembers(p, members), p, last);
    }
  }

  /** A member list of bare IDs, as read from `group.members`, excludes nobody. */
  lemma {:induction false} BareIdsExcludeNobody(users: seq<UserRef>, members: seq<MemberEntry>)
    requires forall k :: 0 <= k < |members| ==> members[k].BareId?
    ensures ExcludeMembers(users, members) == users
  {
    if users != [] {
      var p := users[..|users| - 1];
      BareIdsExcludeNobody(p, members);
      assert !IsListedMember(members, users[|users| - 1].id);
      assert p + [users[|users| - 1]] == users;
    }
  }

  /** The characters `String.prototype.trim` removes: ECMAScript white space (tab, vertical tab,
      form feed, the byte-order mark and the space separators) and line terminators. */
  predicate IsJsWhitespace(c: char)
  {
    var n := c as int;
    n == 0x09 || n == 0x0A || n == 0x0B || n == 0x0C || n == 0x0D || n == 0x20 || n == 0xA0 ||
    n == 0x1680 || (0x2000 <= n <= 0x200A) || n == 0x2028 || n == 0x2029 || n == 0x202F ||
    n == 0x205F || n == 0x3000 || n == 0xFEFF
  }

  /** `!s.trim()`: the string is empty once its surrounding white space is removed. */
  predicate IsBlank(s: string)
  {
    forall k :: 0 <= k < |s| ==> IsJsWhitespace(s[k])
  }

  /** What the search request brought back: a failure, or a body whose `users` may be missing. */
  datatype SearchReply = SearchFailed | SearchUsers(users: Option<seq<UserRef>>)

  // ---------------------------------------------------------------- avatar colour

  const Colors: seq<string> := ["#1890ff", "#52c41a", "#faad14", "#f5222d", "#722ed1", "#13c2c2"]

  const TwoTo32: int := 0x1_0000_0000
  const TwoTo31: int := 0x8000_0000

  /** ECMAScript ToInt32 on an integer: wrap into [-2^31, 2^31). */
  function ToInt32(x: int): (r: int)
    ensures -TwoTo31 <= r < TwoTo31
    ensures (r - x) % TwoTo32 == 0
  {
    var m := x % TwoTo32;
    if m >= TwoTo31 then m - TwoTo32 else m
  }

  /** The hash of `getRandomColor`: for each character `hash = code + ((hash << 5) - hash)`, where
      only the shift wraps to 32 bits. */
  function HashOf(s: string): int
  {
    if s == [] then 0
    else
      var h := HashOf(s[..|s| - 1]);
      s[|s| - 1] as int + (ToInt32(h * 32) - h)
  }

  function Abs(x: int): (r: nat)
    ensures r == x || r == -x
  {
    if x < 0 then -x else x
  }

  /** The colour index `Math.abs(hash) % 6`, always a valid index. */
  function ColorIndex(s: string): (i: nat)
    ensures i < |Colors|
  {
    Abs(HashOf(s)) % |Colors|
  }

  /** `getRandomColor`: the hashing loop, then the colour at the index. */
  method AvatarColor(str: string) returns (color: string)
    ensures color == Colors[ColorIndex(str)]
    ensures color in Colors
  {
    var hash := 0;
    for i := 0 to |str|
      invariant hash == HashOf(str[..i])
    {
      assert str[..i + 1][..i] == str[..i];
      hash := str[i] as int + (ToInt32(hash * 32) - hash);
    }
    assert str[..|str|] == str;
    color := Colors[Abs(hash) % |Colors|];
  }

  /** The empty name gets the first colour; "a" (code 97) the second; "ab" hashes to 3105, the fourth. */
  lemma AvatarColorExamples()
    ensures Colors[ColorIndex("")] == "#1890ff"
    ensures HashOf("a") == 97 && Colors[ColorIndex("a")] == "#52c41a"
    ensures HashOf("ab") == 3105 && Colors[ColorIndex("ab")] == "#f5222d"
  {
    assert "a"[..0] == "";
    assert "ab"[..1] == "a";
    assert ToInt32(97 * 32) == 3104;
  }

  // ---------------------------------------------------------------- page state

  class GroupView {
    var groupMembers: seq<MemberEntry>
    var searchEmail: string
    var searchResults: seq<UserRef>
    var selectedGroup: Option<string>

    constructor ()
      ensures groupMembers == [] && searchEmail == "" && searchResults == [] && selectedGroup == None
    {
      groupMembers := [];
      searchEmail := "";
      searchResults := [];
      selectedGroup := None;
    }

    /** `fetchGroupMembers`: the members read from the response; a failed request (`None`)
        leaves the list as it was. */
    method FetchGroupMembers(response: Option<Option<ResponseBody>>)
      modifies this
      ensures groupMembers == (if response.Some? then NormaliseMembers(response.value) else old(groupMembers))
      ensures searchEmail == old(searchEmail) && searchResults == old(searchResults) && selectedGroup == old(selectedGroup)
    {
      if response.Some? {
        groupMembers := NormaliseMembers(response.value);
      }
    }

    /** `handleSearch`: a blank address sends nothing; otherwise the address is sent and the
        returned users, minus the listed members, become the results (none when the reply has no
        users; unchanged when the request fails). */
    method HandleSearch(reply: SearchReply) returns (request: Option<string>)
      modifies this
      ensures IsBlank(old(searchEmail)) ==> request == None && searchResults == old(searchResults)
      ensures !IsBlank(old(searchEmail)) ==> request == Some(old(searchEmail))
      ensures !IsBlank(old(searchEmail)) && reply.SearchFailed? ==> searchResults == old(searchResults)
      ensures !IsBlank(old(searchEmail)) && reply.SearchUsers? ==>
        searchResults == (if reply.users.Some? && |reply.users.value| > 0
                          then ExcludeMembers(reply.users.value, groupMembers) else [])
      ensures groupMembers == old(groupMembers) && searchEmail == old(searchEmail) && selectedGroup == old(selectedGroup)
    {
      if IsBlank(searchEmail) {
        return None;
      }
      request := Some(searchEmail);
      if reply.SearchFailed? {
        return;
      }
      if reply.users.Some? && |reply.users.value| > 0 {
        var filteredResults := ExcludeMembers(reply.users.value, groupMembers);
        if |filteredResults| > 0 {
          searchResults := filteredResults;
        } else {
          searchResults := [];
        }
      } else {
        searchResults := [];
      }
    }

    /** `handleAddToGroup`: without a selected group nothing is sent; otherwise the add request
        goes out, and on a 200 the members are fetched again and the search is cleared. */
    method HandleAddToGroup(user: UserRef, added: bool, refetched: Option<Option<ResponseBody>>)
      returns (request: Option<(string, string)>)
      modifies this
      ensures old(selectedGroup).None? ==>
        request == None && groupMembers == old(groupMembers) &&
        searchEmail == old(searchEmail) && searchResults == old(searchResults)
      ensures old(selectedGroup).Some? ==> request == Some((old(selectedGroup).value, user.id))
      ensures old(selectedGroup).Some? && added ==>
        groupMembers == (if refetched.Some? then NormaliseMembers(refetched.value) else old(groupMembers)) &&
        searchEmail == "" && searchResults == []
      ensures old(selectedGroup).Some? && !added ==>
        groupMembers == old(groupMembers) && searchEmail == old(searchEmail) && searchResults == old(searchResults)
      ensures selectedGroup == old(selectedGroup)
    {
      if selectedGroup.None? {
        return None;
      }
      request := Some((selectedGroup.value, user.id));
      if added {
        FetchGroupMembers(refetched);
        searchResults := [];
        searchEmail := "";
      }
    }
  }
}
