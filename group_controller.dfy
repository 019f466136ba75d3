/** The group controller over a store of groups: creation, the admin-gated membership changes,
    rename, delete and the read-only listings. */
module GroupController {
  import opened Base
  import opened Text
  import opened UserModel
  import opened GroupModel

  const NotFoundMessage: string := "Group not found."
  const AdminOnlyMessage: string := "Only admins can perform this action."
  /** The error text of a save whose group has lost its required name. */
  const NameRequiredError: string := "Group validation failed: name: Path `name` is required."
  /** The head of the error text of a save whose member carries a role outside the enum. */
  const RoleRejected: string := "Group validation failed"

  // ----- Memberships -----

  /** `members.find(m => m.userId === userId)`: the position of the first entry for `userId`. */
  function FindMember(members: seq<Membership>, userId: UserId): (r: Option<nat>)
    ensures r.Some? ==> r.value < |members| && members[r.value].userId == userId
    ensures r.Some? ==> forall j | 0 <= j < r.value :: members[j].userId != userId
    ensures r.None? <==> forall j | 0 <= j < |members| :: members[j].userId != userId
  {
    if members == [] then None
    else if members[0].userId == userId then Some(0)
    else match FindMember(members[1..], userId)
      case None => None
      case Some(k) => Some(k + 1)
  }

  predicate HasMember(members: seq<Membership>, userId: UserId) {
    FindMember(members, userId).Some?
  }

  /** The admin gate of each handler: the requester's first entry has the admin role. */
  predicate IsAdmin(members: seq<Membership>, userId: UserId) {
    match FindMember(members, userId)
    case None => false
    case Some(i) => members[i].role == Admin
  }

  /** `members.filter(m => m.userId !== userId)` */
  function Without(members: seq<Membership>, userId: UserId): (r: seq<Membership>)
    ensures |r| <= |members|
  {
    if members == [] then []
    else (if members[0].userId == userId then [] else [members[0]]) + Without(members[1..], userId)
  }

  /** No user is listed twice. The schema does not enforce this; the handlers keep it. */
  predicate UniqueMembers(members: seq<Membership>) {
    forall i, j | 0 <= i < j < |members| :: members[i].userId != members[j].userId
  }

  /** The role entry `i` takes, or the same entry when the role is left alone. */
  function WithRole(members: seq<Membership>, i: nat, role: Role): seq<Membership>
    requires i < |members|
  {
    members[i := members[i].(role := role)]
  }

  // ----- Properties of the membership helpers -----

  /** The filter keeps exactly the entries of other users. */
  lemma {:induction false} WithoutMembers(members: seq<Membership>, userId: UserId, m: Membership)
    ensures m in Without(members, userId) <==> m in members && m.userId != userId
  {
    if members != [] {
      WithoutMembers(members[1..], userId, m);
      assert members == [members[0]] + members[1..];
    }
  }

  /** The filter keeps the order: it distributes over concatenation. */
  lemma {:induction false} WithoutAppend(a: seq<Membership>, b: seq<Membership>, userId: UserId)
    ensures Without(a + b, userId) == Without(a, userId) + Without(b, userId)
  {
    if a == [] {
      assert a + b == b;
    } else {
      assert (a + b)[1..] == a[1..] + b;
      WithoutAppend(a[1..], b, userId);
    }
  }

  /** Filtering out a user who is not listed changes nothing. */
  lemma {:induction false} WithoutNonMember(members: seq<Membership>, userId: UserId)
    requires forall j | 0 <= j < |members| :: members[j].userId != userId
    ensures Without(members, userId) == members
  {
    if members != [] {
      WithoutNonMember(members[1..], userId);
    }
  }

  /** Filtering leaves no entry for the user and keeps distinct users distinct. */
  lemma {:induction false} WithoutKeepsUnique(members: seq<Membership>, userId: UserId)
    requires UniqueMembers(members)
    ensures UniqueMembers(Without(members, userId))
    ensures !HasMember(Without(members, userId), userId)
  {
    if members != [] {
      WithoutKeepsUnique(members[1..], userId);
      var rest := Without(members[1..], userId);
      forall m | m in rest ensures m.userId != members[0].userId {
        WithoutMembers(members[1..], userId, m);
        var k :| 0 <= k < |members[1..]| && members[1..][k] == m;
        assert members[k + 1] == m;
      }
      forall m | m in Without(members, userId) ensures m.userId != userId {
        WithoutMembers(members, userId, m);
      }
      var r := Without(members, userId);
      forall j | 0 <= j < |r| ensures r[j].userId != userId {
        assert r[j] in r;
      }
    }
  }

  /** Appending an entry for a user not yet listed keeps users distinct. */
  lemma AppendKeepsUnique(members: seq<Membership>, m: Membership)
    requires UniqueMembers(members) && !HasMember(members, m.userId)
    ensures UniqueMembers(members + [m])
  {
    var after := members + [m];
    forall i, j | 0 <= i < j < |after| ensures after[i].userId != after[j].userId {
      assert after[i] == members[i];
      if j < |members| {
        assert after[j] == members[j];
      }
    }
  }

  // ----- The store -----

  type Groups = map<GroupId, Group>

  /** The groups after a handler and its reply. */
  datatype Change = Change(groups: Groups, reply: Response)

  /** Every stored group lists each member once. */
  predicate StoreInvariant(groups: Groups) {
    forall k | k in groups :: UniqueMembers(groups[k].members)
  }

  /** Every stored id lies below the next id to hand out. */
  predicate IdsBelow(groups: Groups, nextId: GroupId) {
    forall k | k in groups :: k < nextId
  }

  /** Only the group `groupId` may differ, and no group appears or disappears. */
  predicate OnlyChanges(before: Groups, after: Groups, groupId: GroupId) {
    after.Keys == before.Keys
    && forall k | k in before && k != groupId :: after[k] == before[k]
  }

  /** Replacing one stored group changes only that group. */
  lemma ReplaceChangesOnlyIt(groups: Groups, groupId: GroupId, g: Group)
    requires groupId in groups
    ensures OnlyChanges(groups, groups[groupId := g], groupId)
  {
    assert groups[groupId := g].Keys == groups.Keys;
  }

  /** Replacing one stored group by one with distinct members keeps the invariant. */
  lemma ReplaceKeepsInvariant(groups: Groups, groupId: GroupId, g: Group)
    requires StoreInvariant(groups) && UniqueMembers(g.members)
    ensures StoreInvariant(groups[groupId := g])
  {
  }

  /** Replacing a stored group keeps the ids below the next one. */
  lemma ReplaceKeepsIds(groups: Groups, groupId: GroupId, g: Group, nextId: GroupId)
    requires groupId in groups && IdsBelow(groups, nextId)
    ensures IdsBelow(groups[groupId := g], nextId)
  {
  }

  /** Storing a group under the next id keeps every id below the one after it. */
  lemma InsertKeepsIds(groups: Groups, nextId: GroupId, g: Group)
    requires IdsBelow(groups, nextId)
    ensures IdsBelow(groups[nextId := g], nextId + 1)
  {
  }

  /** `Group.findOne({ name, createdBy })`, with the name trimmed by the schema's setter. */
  predicate NameTaken(groups: Groups, name: string, owner: UserId) {
    exists k | k in groups :: groups[k].name == Trim(name) && groups[k].createdBy == owner
  }

  /** `createGroup`: the requester is the creator and the only member, as admin. */
  function CreateOutcome(groups: Groups, nextId: GroupId, requester: UserId, name: string)
    : (r: (Change, GroupId))
    requires IdsBelow(groups, nextId)
  {
    if NameTaken(groups, name, requester) then
      (Change(groups, Response(400, "Group with the same name already exists.")), nextId)
    else
      var g := NewGroup(name, requester, [Membership(requester, Admin)]);
      if !SchemaValid(g) then (Change(groups, Response(500, NameRequiredError)), nextId)
      else (Change(groups[nextId := g], Response(201, "")), nextId + 1)
  }

  /** `addUserToGroup`. The user is looked up by `key`, the email of the body as the `lowercase`
      and `trim` setters cast it in the query filter;
      a role outside the enum and a group without a name make the save fail. */
  function AddOutcome(groups: Groups, users: seq<User>, requester: UserId, groupId: GroupId,
                      key: string, role: Option<string>): Change
  {
    if groupId !in groups then Change(groups, Response(404, NotFoundMessage))
    else
      var g := groups[groupId];
      if !IsAdmin(g.members, requester) then Change(groups, Response(403, AdminOnlyMessage))
      else
        var found := FindByEmail(users, key);
        if found.None? then Change(groups, Response(404, "User not found."))
        else
          var userId := users[found.value].id;
          if HasMember(g.members, userId) then Change(groups, Response(400, "User already in group."))
          else match CastMembership(userId, Some(if Truthy(role) then role.value else RoleName(DefaultRole)))
            case None => Change(groups, Response(500, "Internal Server Error"))
            case Some(m) =>
              if !SchemaValid(g) then Change(groups, Response(500, "Internal Server Error"))
              else Change(groups[groupId := g.(members := g.members + [m])],
                          Response(200, "User added successfully."))
  }

  /** `removeUserFromGroup`: every entry of the user goes; a user who is not listed is not an
      error. */
  function RemoveOutcome(groups: Groups, requester: UserId, groupId: GroupId, userId: UserId): Change {
    if groupId !in groups then Change(groups, Response(404, NotFoundMessage))
    else
      var g := groups[groupId];
      if !IsAdmin(g.members, requester) then Change(groups, Response(403, AdminOnlyMessage))
      else if !SchemaValid(g) then Change(groups, Response(500, NameRequiredError))
      else Change(groups[groupId := g.(members := Without(g.members, userId))], Response(200, ""))
  }

  /** `updateUserInGroup`: a truthy role is assigned to the user's first entry; the status is
      not a schema path and is dropped. */
  function UpdateOutcome(groups: Groups, requester: UserId, groupId: GroupId, userId: UserId,
                         role: Option<string>, status: Option<string>): Change {
    if groupId !in groups then Change(groups, Response(404, NotFoundMessage))
    else
      var g := groups[groupId];
      if !IsAdmin(g.members, requester) then Change(groups, Response(403, AdminOnlyMessage))
      else match FindMember(g.members, userId)
        case None => Change(groups, Response(404, "User not in group."))
        case Some(i) =>
          if Truthy(role) && ParseRole(role.value).None? then
            Change(groups, Response(500, RoleRejected))
          else if !SchemaValid(g) then Change(groups, Response(500, NameRequiredError))
          else
            var members := if Truthy(role) then WithRole(g.members, i, ParseRole(role.value).value)
                           else g.members;
            Change(groups[groupId := g.(members := members)], Response(200, ""))
  }

  /** `updateGroup`: `findByIdAndUpdate` with the trimmed name; it checks neither the requester
      nor the name, and answers 200 (with `null` for a missing group). */
  function RenameOutcome(groups: Groups, groupId: GroupId, name: string): Change {
    if groupId in groups then Change(groups[groupId := groups[groupId].(name := Trim(name))], Response(200, ""))
    else Change(groups, Response(200, ""))
  }

  /** `deleteGroup`: `findByIdAndDelete`, with no check of the requester. */
  function DeleteOutcome(groups: Groups, groupId: GroupId): Change {
    Change(groups - {groupId}, Response(200, "Group deleted"))
  }

  /** `getMyGroups`, first list: the groups the user created. `getGroups` lists the same. */
  function CreatedGroups(groups: Groups, userId: UserId): (s: set<GroupId>)
    ensures forall k :: k in s <==> k in groups && groups[k].createdBy == userId
  {
    set k | k in groups && groups[k].createdBy == userId
  }

  /** `getMyGroups`, second list: the groups that list the user and were created by someone else. */
  function MemberGroups(groups: Groups, userId: UserId): (s: set<GroupId>)
    ensures forall k :: k in s <==> k in groups && HasMember(groups[k].members, userId)
                                     && groups[k].createdBy != userId
  {
    set k | k in groups && HasMember(groups[k].members, userId) && groups[k].createdBy != userId
  }

  /** `getGroupMembers`: the members of the group, or 404. */
  function GroupMembers(groups: Groups, groupId: GroupId): (r: Option<seq<Membership>>)
    ensures r.Some? <==> groupId in groups
    ensures r.Some? ==> r.value == groups[groupId].members
  {
    if groupId in groups then Some(groups[groupId].members) else None
  }

  class GroupStore {
    var groups: Groups
    var nextId: GroupId

    ghost predicate Valid()
      reads this
    {
      IdsBelow(groups, nextId) && StoreInvariant(groups)
    }

    constructor ()
      ensures Valid() && groups == map[] && nextId == 0
    {
      groups := map[];
      nextId := 0;
    }

    method CreateGroup(requester: UserId, name: string) returns (reply: Response)
      requires Valid()
      modifies this
      ensures (Change(groups, reply), nextId) == CreateOutcome(old(groups), old(nextId), requester, name)
      ensures Valid()
    {
      if NameTaken(groups, name, requester) {
        return Response(400, "Group with the same name already exists.");
      }
      var g := NewGroup(name, requester, [Membership(requester, Admin)]);
      if !SchemaValid(g) {
        return Response(500, NameRequiredError);
      }
      assert UniqueMembers(g.members);
      ReplaceKeepsInvariant(groups, nextId, g);
      InsertKeepsIds(groups, nextId, g);
      groups := groups[nextId := g];
      nextId := nextId + 1;
      reply := Response(201, "");
    }

    method AddUser(users: seq<User>, requester: UserId, groupId: GroupId, email: string,
                   role: Option<string>) returns (reply: Response)
      requires Valid()
      modifies this
      ensures Change(groups, reply) == AddOutcome(old(groups), users, requester, groupId, NormalizeEmail(email), role)
      ensures nextId == old(nextId) && Valid()
    {
      if groupId !in groups {
        return Response(404, NotFoundMessage);
      }
      var group := groups[groupId];
      var requesting := FindMember(group.members, requester);
      if requesting.None? || group.members[requesting.value].role != Admin {
        return Response(403, AdminOnlyMessage);
      }
      var key := NormalizeEmail(email);
      var found := FindByEmail(users, key);
      if found.None? {
        return Response(404, "User not found.");
      }
      var userId := users[found.value].id;
      var existing := FindMember(group.members, userId);
      if existing.Some? {
        return Response(400, "User already in group.");
      }
      var entry := CastMembership(userId, Some(if Truthy(role) then role.value else RoleName(DefaultRole)));
      if entry.None? || group.name == "" {
        return Response(500, "Internal Server Error");
      }
      AppendKeepsUnique(group.members, entry.value);
      group := group.(members := group.members + [entry.value]);
      groups := groups[groupId := group];
      reply := Response(200, "User added successfully.");
    }

    method RemoveUser(requester: UserId, groupId: GroupId, userId: UserId) returns (reply: Response)
      requires Valid()
      modifies this
      ensures Change(groups, reply) == RemoveOutcome(old(groups), requester, groupId, userId)
      ensures nextId == old(nextId) && Valid()
    {
      if groupId !in groups {
        return Response(404, NotFoundMessage);
      }
      var group := groups[groupId];
      var requesting := FindMember(group.members, requester);
      if requesting.None? || group.members[requesting.value].role != Admin {
        return Response(403, AdminOnlyMessage);
      }
      if group.name == "" {
        return Response(500, NameRequiredError);
      }
      WithoutKeepsUnique(group.members, userId);
      group := group.(members := Without(group.members, userId));
      groups := groups[groupId := group];
      reply := Response(200, "");
    }

    method UpdateUser(requester: UserId, groupId: GroupId, userId: UserId, role: Option<string>,
                      status: Option<string>) returns (reply: Response)
      requires Valid()
      modifies this
      ensures Change(groups, reply) == UpdateOutcome(old(groups), requester, groupId, userId, role, status)
      ensures nextId == old(nextId) && Valid()
    {
      if groupId !in groups {
        return Response(404, NotFoundMessage);
      }
      var group := groups[groupId];
      var requesting := FindMember(group.members, requester);
      if requesting.None? || group.members[requesting.value].role != Admin {
        return Response(403, AdminOnlyMessage);
      }
      var member := FindMember(group.members, userId);
      if member.None? {
        return Response(404, "User not in group.");
      }
      var members := group.members;
      if Truthy(role) {
        var parsed := ParseRole(role.value);
        if parsed.None? {
          return Response(500, RoleRejected);
        }
        members := WithRole(members, member.value, parsed.value);
      }
      // `member.status = status` sets no schema path: nothing of it is saved.
      if group.name == "" {
        return Response(500, NameRequiredError);
      }
      group := group.(members := members);
      groups := groups[groupId := group];
      reply := Response(200, "");
    }

    method Rename(groupId: GroupId, name: string) returns (reply: Response)
      requires Valid()
      modifies this
      ensures Change(groups, reply) == RenameOutcome(old(groups), groupId, name)
      ensures nextId == old(nextId) && Valid()
    {
      reply := Response(200, "");
      if groupId in groups {
        var renamed := groups[groupId].(name := Trim(name));
        ReplaceKeepsInvariant(groups, groupId, renamed);
        ReplaceKeepsIds(groups, groupId, renamed, nextId);
        groups := groups[groupId := renamed];
      }
    }

    method Delete(groupId: GroupId) returns (reply: Response)
      requires Valid()
      modifies this
      ensures Change(groups, reply) == DeleteOutcome(old(groups), groupId)
      ensures nextId == old(nextId) && Valid()
    {
      groups := groups - {groupId};
      reply := Response(200, "Group deleted");
    }
  }

  // ----- Properties -----

  /** A name already used by the same creator is refused and nothing changes; the same name
      under another creator is accepted. */
  lemma CreateRefusesDuplicateName(groups: Groups, nextId: GroupId, requester: UserId, name: string)
    requires IdsBelow(groups, nextId)
    ensures NameTaken(groups, name, requester) ==>
      CreateOutcome(groups, nextId, requester, name)
        == (Change(groups, Response(400, "Group with the same name already exists.")), nextId)
    ensures CreateOutcome(groups, nextId, requester, name).0.reply.status == 400
        <==> NameTaken(groups, name, requester)
  {
  }

  /** Duplicate names are judged per creator: only the requester's own groups of that trimmed
      name are an obstacle, whatever other users have named their groups. */
  lemma CreateAllowsNameOfOtherCreator(groups: Groups, nextId: GroupId, requester: UserId,
                                       name: string)
    requires IdsBelow(groups, nextId)
    requires !NameTaken(groups, name, requester)
    requires Trim(name) != ""
    ensures CreateOutcome(groups, nextId, requester, name).0.reply.status == 201
  {
  }

  /** A created group gets the next id, the trimmed name, the requester as creator and the
      requester as its only member, with the admin role; no other group changes. */
  lemma CreateSuccess(groups: Groups, nextId: GroupId, requester: UserId, name: string)
    requires IdsBelow(groups, nextId)
    requires CreateOutcome(groups, nextId, requester, name).0.reply.status == 201
    ensures var (c, next) := CreateOutcome(groups, nextId, requester, name);
            next == nextId + 1 && nextId !in groups
            && c.groups == groups[nextId := Group(Trim(name), requester, [Membership(requester, Admin)])]
            && c.groups[nextId].members[0] == Membership(requester, Admin)
            && |c.groups[nextId].members| == 1
  {
  }

  /** `addUserToGroup` reports its errors in a fixed order: missing group, requester not an
      admin, unknown email, user already listed. */
  lemma AddErrorOrder(groups: Groups, users: seq<User>, requester: UserId, groupId: GroupId,
                      key: string, role: Option<string>)
    ensures groupId !in groups ==>
      AddOutcome(groups, users, requester, groupId, key, role) == Change(groups, Response(404, NotFoundMessage))
    ensures groupId in groups && !IsAdmin(groups[groupId].members, requester) ==>
      AddOutcome(groups, users, requester, groupId, key, role) == Change(groups, Response(403, AdminOnlyMessage))
    ensures groupId in groups && IsAdmin(groups[groupId].members, requester)
            && FindByEmail(users, key).None? ==>
      AddOutcome(groups, users, requester, groupId, key, role) == Change(groups, Response(404, "User not found."))
    ensures groupId in groups && IsAdmin(groups[groupId].members, requester)
            && FindByEmail(users, key).Some?
            && HasMember(groups[groupId].members, users[FindByEmail(users, key).value].id) ==>
      AddOutcome(groups, users, requester, groupId, key, role) == Change(groups, Response(400, "User already in group."))
  {
  }

  /** A successful add came from an admin and appended exactly one entry, the found user with
      the requested role or `member`; the existing entries and all other groups are unchanged. */
  lemma AddSuccess(groups: Groups, users: seq<User>, requester: UserId, groupId: GroupId,
                   key: string, role: Option<string>)
    requires AddOutcome(groups, users, requester, groupId, key, role).reply.status == 200
    ensures groupId in groups && IsAdmin(groups[groupId].members, requester)
    ensures FindByEmail(users, key).Some?
    ensures var c := AddOutcome(groups, users, requester, groupId, key, role);
            var u := users[FindByEmail(users, key).value].id;
            var r := if Truthy(role) then role.value else RoleName(DefaultRole);
            !HasMember(groups[groupId].members, u) && ParseRole(r).Some?
            && c.groups == groups[groupId := groups[groupId].(members := groups[groupId].members
                                                              + [Membership(u, ParseRole(r).value)])]
  {
    var g := groups[groupId];
    var found := FindByEmail(users, key);
    var u := users[found.value].id;
    var r := if Truthy(role) then role.value else RoleName(DefaultRole);
    var m := CastMembership(u, Some(r));
    assert !HasMember(g.members, u) && m.Some?;
    assert m.value == Membership(u, ParseRole(r).value);
  }

  /** A requester who is not an admin of the group changes nothing, whatever the operation. */
  lemma NonAdminChangesNothing(groups: Groups, users: seq<User>, requester: UserId, groupId: GroupId,
                               userId: UserId, key: string, role: Option<string>, status: Option<string>)
    requires groupId in groups && !IsAdmin(groups[groupId].members, requester)
    ensures AddOutcome(groups, users, requester, groupId, key, role) == Change(groups, Response(403, AdminOnlyMessage))
    ensures RemoveOutcome(groups, requester, groupId, userId) == Change(groups, Response(403, AdminOnlyMessage))
    ensures UpdateOutcome(groups, requester, groupId, userId, role, status)
         == Change(groups, Response(403, AdminOnlyMessage))
  {
  }

  /** Removing succeeds for an admin of a named group, drops every entry of the user and keeps
      the others in order; removing a user who is not listed changes nothing. */
  lemma RemoveSuccess(groups: Groups, requester: UserId, groupId: GroupId, userId: UserId)
    requires groupId in groups && IsAdmin(groups[groupId].members, requester)
    requires SchemaValid(groups[groupId])
    ensures var c := RemoveOutcome(groups, requester, groupId, userId);
            c.reply.status == 200
            && c.groups == groups[groupId := groups[groupId].(members := Without(groups[groupId].members, userId))]
    ensures !HasMember(groups[groupId].members, userId) ==>
      RemoveOutcome(groups, requester, groupId, userId).groups == groups
  {
    var g := groups[groupId];
    if !HasMember(g.members, userId) {
      WithoutNonMember(g.members, userId);
      assert g.(members := g.members) == g;
    }
  }

  /** An update changes at most the role of the user's first entry, only for a truthy valid
      role, and never depends on the status. */
  lemma UpdateSuccess(groups: Groups, requester: UserId, groupId: GroupId, userId: UserId,
                      role: Option<string>, status: Option<string>, otherStatus: Option<string>)
    requires UpdateOutcome(groups, requester, groupId, userId, role, status).reply.status == 200
    ensures UpdateOutcome(groups, requester, groupId, userId, role, otherStatus)
         == UpdateOutcome(groups, requester, groupId, userId, role, status)
    ensures groupId in groups && IsAdmin(groups[groupId].members, requester)
    ensures FindMember(groups[groupId].members, userId).Some?
    ensures var c := UpdateOutcome(groups, requester, groupId, userId, role, status);
            var i := FindMember(groups[groupId].members, userId).value;
            var before := groups[groupId].members;
            var after := c.groups[groupId].members;
            OnlyChanges(groups, c.groups, groupId)
            && c.groups[groupId].name == groups[groupId].name
            && c.groups[groupId].createdBy == groups[groupId].createdBy
            && |after| == |before|
            && (forall j | 0 <= j < |before| && j != i :: after[j] == before[j])
            && after[i].userId == userId
            && after[i].role == (if Truthy(role) then ParseRole(role.value).value else before[i].role)
  {
  }

  /** A group that is not stored is reported as 404 "Group not found." by every handler that
      changes its members, and nothing changes. */
  lemma MissingGroupNotFound(groups: Groups, users: seq<User>, requester: UserId, groupId: GroupId,
                             userId: UserId, key: string, role: Option<string>, status: Option<string>)
    requires groupId !in groups
    ensures AddOutcome(groups, users, requester, groupId, key, role) == Change(groups, Response(404, NotFoundMessage))
    ensures RemoveOutcome(groups, requester, groupId, userId) == Change(groups, Response(404, NotFoundMessage))
    ensures UpdateOutcome(groups, requester, groupId, userId, role, status)
         == Change(groups, Response(404, NotFoundMessage))
  {
  }

  /** A target the group does not list is reported as 404 "User not in group.". */
  lemma UpdateNonMember(groups: Groups, requester: UserId, groupId: GroupId, userId: UserId,
                        role: Option<string>, status: Option<string>)
    requires groupId in groups && IsAdmin(groups[groupId].members, requester)
    requires !HasMember(groups[groupId].members, userId)
    ensures UpdateOutcome(groups, requester, groupId, userId, role, status)
         == Change(groups, Response(404, "User not in group."))
  {
  }

  /** Rename needs no membership: any requester may rename, and only the name changes. */
  lemma RenameChangesOnlyName(groups: Groups, groupId: GroupId, name: string)
    requires groupId in groups
    ensures var c := RenameOutcome(groups, groupId, name);
            OnlyChanges(groups, c.groups, groupId)
            && c.groups[groupId] == groups[groupId].(name := Trim(name))
            && c.reply.status == 200
  {
    var renamed := groups[groupId].(name := Trim(name));
    assert RenameOutcome(groups, groupId, name).groups == groups[groupId := renamed];
    ReplaceChangesOnlyIt(groups, groupId, renamed);
  }

  /** Delete needs no membership either, and removes that group alone. */
  lemma DeleteRemovesOnlyThatGroup(groups: Groups, groupId: GroupId)
    ensures var c := DeleteOutcome(groups, groupId);
            c.groups.Keys == groups.Keys - {groupId}
            && (forall k | k in c.groups :: c.groups[k] == groups[k])
            && c.reply == Response(200, "Group deleted")
  {
  }

  /** A failed add leaves the store as it was. */
  lemma AddFailureChangesNothing(groups: Groups, users: seq<User>, requester: UserId, groupId: GroupId,
                                 key: string, role: Option<string>)
    requires AddOutcome(groups, users, requester, groupId, key, role).reply.status != 200
    ensures AddOutcome(groups, users, requester, groupId, key, role).groups == groups
  {
  }

  /** An add changes at most its own group and keeps every group's members distinct. */
  lemma AddKeepsInvariant(groups: Groups, users: seq<User>, requester: UserId, groupId: GroupId,
                          key: string, role: Option<string>)
    requires StoreInvariant(groups)
    ensures var after := AddOutcome(groups, users, requester, groupId, key, role).groups;
            OnlyChanges(groups, after, groupId) && StoreInvariant(after)
  {
    if AddOutcome(groups, users, requester, groupId, key, role).reply.status == 200 {
      AddSuccess(groups, users, requester, groupId, key, role);
      var g := groups[groupId];
      var u := users[FindByEmail(users, key).value].id;
      var r := if Truthy(role) then role.value else RoleName(DefaultRole);
      var m := Membership(u, ParseRole(r).value);
      AppendKeepsUnique(g.members, m);
      ReplaceChangesOnlyIt(groups, groupId, g.(members := g.members + [m]));
      ReplaceKeepsInvariant(groups, groupId, g.(members := g.members + [m]));
    } else {
      AddFailureChangesNothing(groups, users, requester, groupId, key, role);
    }
  }

  /** A removal changes at most its own group and keeps every group's members distinct. */
  lemma RemoveKeepsInvariant(groups: Groups, requester: UserId, groupId: GroupId, userId: UserId)
    requires StoreInvariant(groups)
    ensures var after := RemoveOutcome(groups, requester, groupId, userId).groups;
            OnlyChanges(groups, after, groupId) && StoreInvariant(after)
  {
    if groupId in groups && IsAdmin(groups[groupId].members, requester) && SchemaValid(groups[groupId]) {
      var g := groups[groupId];
      RemoveSuccess(groups, requester, groupId, userId);
      WithoutKeepsUnique(g.members, userId);
      ReplaceChangesOnlyIt(groups, groupId, g.(members := Without(g.members, userId)));
      ReplaceKeepsInvariant(groups, groupId, g.(members := Without(g.members, userId)));
    }
  }

  /** A change of role keeps the users of a member list, so it keeps them distinct. */
  lemma WithRoleKeepsUnique(members: seq<Membership>, i: nat, role: Role)
    requires i < |members| && UniqueMembers(members)
    ensures UniqueMembers(WithRole(members, i, role))
  {
    var after := WithRole(members, i, role);
    assert forall j | 0 <= j < |members| :: after[j].userId == members[j].userId;
  }

  /** An update changes at most its own group and keeps every group's members distinct. */
  lemma UpdateKeepsInvariant(groups: Groups, requester: UserId, groupId: GroupId, userId: UserId,
                             role: Option<string>, status: Option<string>)
    requires StoreInvariant(groups)
    ensures var after := UpdateOutcome(groups, requester, groupId, userId, role, status).groups;
            OnlyChanges(groups, after, groupId) && StoreInvariant(after)
  {
    var c := UpdateOutcome(groups, requester, groupId, userId, role, status);
    if c.reply.status == 200 {
      UpdateSuccess(groups, requester, groupId, userId, role, status, status);
      var g := groups[groupId];
      var i := FindMember(g.members, userId).value;
      var members := if Truthy(role) then WithRole(g.members, i, ParseRole(role.value).value) else g.members;
      if Truthy(role) {
        WithRoleKeepsUnique(g.members, i, ParseRole(role.value).value);
      }
      assert c.groups == groups[groupId := g.(members := members)];
      ReplaceKeepsInvariant(groups, groupId, g.(members := members));
    } else {
      assert c.groups == groups;
    }
  }

  /** A rename keeps every group's members distinct. */
  lemma RenameKeepsInvariant(groups: Groups, groupId: GroupId, name: string)
    requires StoreInvariant(groups)
    ensures StoreInvariant(RenameOutcome(groups, groupId, name).groups)
  {
    if groupId in groups {
      var renamed := groups[groupId].(name := Trim(name));
      assert RenameOutcome(groups, groupId, name).groups == groups[groupId := renamed];
      ReplaceKeepsInvariant(groups, groupId, renamed);
    }
  }

  /** A creation adds a group with one member, and keeps the ids below the next one. */
  lemma CreateKeepsInvariant(groups: Groups, nextId: GroupId, requester: UserId, name: string)
    requires StoreInvariant(groups) && IdsBelow(groups, nextId)
    ensures var (c, next) := CreateOutcome(groups, nextId, requester, name);
            StoreInvariant(c.groups) && IdsBelow(c.groups, next)
  {
    var g := NewGroup(name, requester, [Membership(requester, Admin)]);
    if !NameTaken(groups, name, requester) && SchemaValid(g) {
      assert UniqueMembers(g.members);
      ReplaceKeepsInvariant(groups, nextId, g);
      InsertKeepsIds(groups, nextId, g);
      assert CreateOutcome(groups, nextId, requester, name)
          == (Change(groups[nextId := g], Response(201, "")), nextId + 1);
    }
  }

  /** A deletion keeps every remaining group as it was. */
  lemma DeleteKeepsInvariant(groups: Groups, groupId: GroupId)
    requires StoreInvariant(groups)
    ensures StoreInvariant(DeleteOutcome(groups, groupId).groups)
  {
  }


  /** The two lists of `getMyGroups` never share a group, and together they are every group
      the user created or is listed in. */
  lemma MyGroupsPartition(groups: Groups, userId: UserId)
    ensures CreatedGroups(groups, userId) * MemberGroups(groups, userId) == {}
    ensures CreatedGroups(groups, userId) + MemberGroups(groups, userId)
         == set k | k in groups && (groups[k].createdBy == userId || HasMember(groups[k].members, userId))
  {
  }

  /** The creator of a group made by `createGroup` sees it among its created groups, not among
      its member groups, although it is listed as a member. */
  lemma CreatorSeesGroupAsCreated(groups: Groups, nextId: GroupId, requester: UserId, name: string)
    requires IdsBelow(groups, nextId)
    requires CreateOutcome(groups, nextId, requester, name).0.reply.status == 201
    ensures var after := CreateOutcome(groups, nextId, requester, name).0.groups;
            nextId in CreatedGroups(after, requester) && nextId !in MemberGroups(after, requester)
            && HasMember(after[nextId].members, requester)
  {
    var after := CreateOutcome(groups, nextId, requester, name).0.groups;
    assert after[nextId].members[0].userId == requester;
  }
}
