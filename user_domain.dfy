/** The gateway's user account entity with the constraints its annotations
    declare, the role naming the service applies, and the entity-to-record
    converter. */
module UserDomain {
  import opened Common

  /** A stored account. Every field is nullable in the entity class; the
      username is the key, the password is the stored hash. */
  datatype UserEntity = UserEntity(
    username: Option<string>,
    password: Option<string>,
    roles: Option<set<string>>,
    enabled: Option<bool>)

  /** An account on the wire. */
  datatype UserDto = UserDto(
    username: Option<string>,
    password: Option<string>,
    roles: Option<set<string>>,
    enabled: Option<bool>)

  /** The bean-validation constraints: `@NotBlank` on username and password
      (present, and not empty once trimmed), roles and enabled present. */
  predicate ValidUser(u: UserEntity) {
    && u.username.Some? && !TrimsToEmpty(u.username.value)
    && u.password.Some? && !TrimsToEmpty(u.password.value)
    && u.roles.Some?
    && u.enabled.Some?
  }

  /** The entity built by its constructor from a username, a password and a
      role set: `enabled` takes its default, true. */
  function NewUser(username: string, password: string, roles: set<string>): (u: UserEntity)
    ensures u.username == Some(username) && u.password == Some(password) && u.roles == Some(roles)
    ensures u.enabled == Some(true)
    ensures ValidUser(u) <==> !TrimsToEmpty(username) && !TrimsToEmpty(password)
  {
    UserEntity(Some(username), Some(password), Some(roles), Some(true))
  }

  const RolePrefix: string := "ROLE_"

  /** `roles.map { "ROLE_$it" }.toSet()`. */
  function PrefixRoles(roles: set<string>): set<string> {
    set r | r in roles :: RolePrefix + r
  }

  /** A stored role is exactly a requested role behind the prefix. */
  lemma PrefixRolesMembers(roles: set<string>, x: string)
    ensures x in PrefixRoles(roles) <==> |x| >= |RolePrefix| && x[..|RolePrefix|] == RolePrefix && x[|RolePrefix|..] in roles
  {
    if |x| >= |RolePrefix| && x[..|RolePrefix|] == RolePrefix && x[|RolePrefix|..] in roles {
      assert x == RolePrefix + x[|RolePrefix|..];
    }
    if x in PrefixRoles(roles) {
      var r :| r in roles && x == RolePrefix + r;
      assert x[|RolePrefix|..] == r;
    }
  }

  /** Prefixing loses no role: as many roles are stored as were asked for. */
  lemma {:induction false} PrefixRolesCount(roles: set<string>)
    ensures |PrefixRoles(roles)| == |roles|
    decreases |roles|
  {
    if roles != {} {
      var r :| r in roles;
      var rest := roles - {r};
      PrefixRolesCount(rest);
      assert PrefixRoles(roles) == PrefixRoles(rest) + {RolePrefix + r};
      assert RolePrefix + r !in PrefixRoles(rest) by {
        PrefixRolesMembers(rest, RolePrefix + r);
        assert (RolePrefix + r)[|RolePrefix|..] == r;
      }
    } else {
      assert PrefixRoles(roles) == {};
    }
  }

  /** The converter: every field copied. */
  function Transform(u: UserEntity): (d: UserDto)
    ensures d.username == u.username && d.password == u.password
    ensures d.roles == u.roles && d.enabled == u.enabled
  {
    UserDto(u.username, u.password, u.roles, u.enabled)
  }

  /** The list converter. */
  function TransformAll(us: seq<UserEntity>): (ds: seq<UserDto>)
    ensures |ds| == |us|
    ensures forall i | 0 <= i < |us| :: ds[i] == Transform(us[i])
  {
    MapSeq(Transform, us)
  }
}
