/** The Group schema: a named group with its creator and an ordered list of memberships, each
    a user with the role `admin` or `member`. */
module GroupModel {
  import opened Base
  import opened Text

  datatype Role = Admin | Member

  /** The role a membership takes when none is given. */
  const DefaultRole: Role := Member

  function RoleName(r: Role): string {
    match r
    case Admin => "admin"
    case Member => "member"
  }

  /** The `enum` validator of the role path: only the two role names are accepted. */
  function ParseRole(s: string): (r: Option<Role>)
    ensures r.Some? <==> s == "admin" || s == "member"
    ensures r.Some? ==> RoleName(r.value) == s
  {
    if s == "admin" then Some(Admin)
    else if s == "member" then Some(Member)
    else None
  }

  /** Parsing the name of a role gives the role back. */
  lemma ParseRoleName(r: Role)
    ensures ParseRole(RoleName(r)) == Some(r)
  {
  }

  /** One entry of `members`. The schema declares nothing else; a `status` assigned to an entry
      is not a path of the schema and is never stored. */
  datatype Membership = Membership(userId: UserId, role: Role)

  /** A stored group. `createdBy` and every `userId` are required; as plain numbers they are
      always present. */
  datatype Group = Group(name: string, createdBy: UserId, members: seq<Membership>)

  /** The entry a membership object becomes on save: a missing role takes the default, a role
      outside the enum fails validation. */
  function CastMembership(userId: UserId, role: Option<string>): (m: Option<Membership>)
    ensures role.None? ==> m == Some(Membership(userId, DefaultRole))
    ensures role.Some? ==> (m.Some? <==> ParseRole(role.value).Some?)
    ensures m.Some? ==> m.value.userId == userId
    ensures role.Some? && m.Some? ==> RoleName(m.value.role) == role.value
  {
    if role.None? then Some(Membership(userId, DefaultRole))
    else match ParseRole(role.value)
      case None => None
      case Some(r) => Some(Membership(userId, r))
  }

  /** `new Group({...})`: the `trim` setter of the name path. The stored name is its own trimmed
      form, so a later query trimming its filter finds it under the same name. */
  function NewGroup(name: string, createdBy: UserId, members: seq<Membership>): (g: Group)
    ensures Trim(g.name) == g.name
    ensures g.createdBy == createdBy && g.members == members
  {
    TrimIdempotent(name);
    Group(Trim(name), createdBy, members)
  }

  /** `required: true` after the `trim` setter: a new group fails validation exactly when the
      name it was given is empty or only white space. */
  lemma NewGroupNameRequired(name: string, createdBy: UserId, members: seq<Membership>)
    ensures !SchemaValid(NewGroup(name, createdBy, members))
        <==> forall i | 0 <= i < |name| :: IsSpace(name[i])
  {
    TrimEmptyIffBlank(name);
  }

  /** What a save validates beyond the roles: the required name, which must not be empty. */
  predicate SchemaValid(g: Group) {
    g.name != ""
  }

  /** `userId` is not unique within `members`: the schema accepts a user listed twice. */
  lemma SchemaAllowsRepeatedMember(name: string, u: UserId)
    requires name != ""
    ensures var g := Group(name, u, [Membership(u, Admin), Membership(u, Member)]);
            SchemaValid(g) && g.members[0].userId == g.members[1].userId
  {
  }
}
