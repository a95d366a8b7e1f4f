/** The gateway's account table and the registration service over it. */
module UserAccounts {
  import opened Common
  import opened UserDomain

  /** The account table, keyed by username. */
  class UserRepository {
    var users: map<string, UserEntity>

    /** Every row is stored under its own username. */
    ghost predicate Valid()
      reads this
    {
      forall k | k in users :: users[k].username == Some(k)
    }

    constructor ()
      ensures Valid() && users == map[]
    {
      users := map[];
    }

    /** Derived `findUserByUsername`: the row with exactly this key. */
    function FindUserByUsername(username: string): (r: Option<UserEntity>)
      reads this
      ensures r.Some? <==> username in users
      ensures r.Some? ==> r.value == users[username]
    {
      if username in users then Some(users[username]) else None
    }

    /** `CrudRepository.save` of an entity with a username: bean validation
        rejects an invalid entity (false, nothing stored); otherwise the
        row under that username is written. */
    method Save(user: UserEntity) returns (ok: bool)
      requires Valid()
      requires user.username.Some?
      modifies this
      ensures Valid()
      ensures ok <==> ValidUser(user)
      ensures ok ==> users == old(users)[user.username.value := user]
      ensures !ok ==> users == old(users)
    {
      if !ValidUser(user) {
        return false;
      }
      users := users[user.username.value := user];
      ok := true;
    }
  }

  class UserService {
    const repo: UserRepository
    /** The password encoder, an opaque function of the plaintext. */
    const encode: string -> string

    constructor (repo: UserRepository, encode: string -> string)
      ensures this.repo == repo && this.encode == encode
    {
      this.repo := repo;
      this.encode := encode;
    }

    /** `createUserWithHashedPassword`: an existing username answers false
        and stores nothing; otherwise the account is saved with the hash of
        the password, every role behind the `ROLE_` prefix and `enabled`
        true, and the answer is true, unless saving throws (an invalid
        entity), which answers false with nothing stored. */
    method CreateUserWithHashedPassword(username: string, password: string, roles: set<string>)
      returns (ok: bool)
      requires repo.Valid()
      modifies repo
      ensures repo.Valid()
      ensures ok <==> username !in old(repo.users) && !TrimsToEmpty(username) && !TrimsToEmpty(encode(password))
      ensures ok ==> repo.users == old(repo.users)[username := NewUser(username, encode(password), PrefixRoles(roles))]
      ensures ok ==> |repo.users| == |old(repo.users)| + 1
      ensures !ok ==> repo.users == old(repo.users)
    {
      var hash := encode(password);
      if repo.FindUserByUsername(username).Some? {
        return false;
      }
      var user := NewUser(username, hash, PrefixRoles(roles));
      ok := repo.Save(user);
    }
  }
}
