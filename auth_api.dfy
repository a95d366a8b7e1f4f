/** The gateway's registration endpoint: the username is lowercased, the
    role is chosen from the request, the account is created, and a member
    event goes out to the member service. */
module AuthApi {
  import opened Common
  import opened Schema
  import opened UserDomain
  import opened UserAccounts

  /** The role set asked for: ADMIN when the request's role is "ADMIN" once
      upper-cased, USER for anything else. */
  function ChosenRoles(role: string): (r: set<string>)
    ensures r == {"ADMIN"} || r == {"USER"}
  {
    if ToUpper(role) == "ADMIN" then {"ADMIN"} else {"USER"}
  }

  /** Two characters equal once lowered are equal once raised. */
  lemma SameLowerSameUpper(x: char, y: char)
    requires LowerChar(x) == LowerChar(y)
    ensures UpperChar(x) == UpperChar(y)
  {
  }

  /** The role choice ignores letter case: two requests whose roles differ
      only in case get the same role set, so "admin", "Admin" and "ADMIN"
      all register an administrator. */
  lemma ChosenRolesIgnoreCase(role: string, other: string)
    requires ToLower(role) == ToLower(other)
    ensures ChosenRoles(role) == ChosenRoles(other)
  {
    forall i | 0 <= i < |role|
      ensures ToUpper(role)[i] == ToUpper(other)[i]
    {
      assert ToLower(role)[i] == ToLower(other)[i];
      SameLowerSameUpper(role[i], other[i]);
    }
    assert ToUpper(role) == ToUpper(other);
  }

  /** Raising a character gives a capital letter exactly when lowering it
      gives that letter's small form. */
  lemma CaseFoldChar(c: char, capital: char)
    requires 'A' <= capital <= 'Z'
    ensures UpperChar(c) == capital <==> LowerChar(c) == (capital as int + 32) as char
  {
  }

  /** A request registers an administrator exactly when its role is "admin"
      in some mix of cases; the account then holds ROLE_ADMIN, and
      otherwise ROLE_USER. */
  lemma AdminExactly(role: string)
    ensures ChosenRoles(role) == {"ADMIN"} <==> ToLower(role) == "admin"
    ensures PrefixRoles(ChosenRoles(role)) == if ToLower(role) == "admin" then {"ROLE_ADMIN"} else {"ROLE_USER"}
  {
    if |role| == 5 {
      forall i | 0 <= i < 5
        ensures ToUpper(role)[i] == "ADMIN"[i] <==> ToLower(role)[i] == "admin"[i]
      {
        CaseFoldChar(role[i], "ADMIN"[i]);
      }
      assert ToUpper(role) == "ADMIN" <==> ToLower(role) == "admin";
    }
    assert RolePrefix + "ADMIN" == "ROLE_ADMIN";
    assert RolePrefix + "USER" == "ROLE_USER";
    assert PrefixRoles({"ADMIN"}) == {RolePrefix + "ADMIN"};
    assert PrefixRoles({"USER"}) == {RolePrefix + "USER"};
  }

  /** The member event of a registration: id and username both the
      lowercased name, and no books. */
  function MemberEvent(username: string): (d: MemberDto)
    ensures d.username == d.id == Some(username)
    ensures d.books == Some(map[]) && d.memberSince.None?
  {
    MemberDto(Some(username), Some(map[]), Some(username), None)
  }

  /** The event of a registration survives the member service's own
      lowercasing: the member created from it has id equal to username,
      the same name the account was registered under. */
  lemma MemberEventConsistent(username: string)
    ensures var d := MemberEvent(ToLower(username));
      ToLower(d.username.value) == d.id.value == ToLower(username)
  {
    ToLowerIdempotent(username);
  }

  class AuthController {
    const service: UserService
    /** The member events handed to the message broker, oldest first. */
    var sent: seq<MemberDto>

    constructor (service: UserService)
      ensures this.service == service && sent == []
    {
      this.service := service;
      sent := [];
    }

    /** POST /signIn: the username is lowercased and registered with the
        role set the request's role chooses. A refused registration gives
        400 and sends no event. Otherwise one member event for the
        lowercased name is sent, unless the broker throws
        (`publishFails`), which is swallowed, and the answer is 204. */
    method SignIn(username: string, password: string, role: string, publishFails: bool)
      returns (status: int)
      requires service.repo.Valid()
      modifies this, service.repo
      ensures service.repo.Valid()
      ensures status == 204 || status == 400
      ensures var u := ToLower(username);
        && (status == 204 <==> u !in old(service.repo.users) && !TrimsToEmpty(u) && !TrimsToEmpty(service.encode(password)))
        && (status == 204 ==>
              service.repo.users == old(service.repo.users)[u := NewUser(u, service.encode(password), PrefixRoles(ChosenRoles(role)))])
        && (status == 400 ==> service.repo.users == old(service.repo.users))
        && sent == (if status == 204 && !publishFails then old(sent) + [MemberEvent(u)] else old(sent))
    {
      var name := ToLower(username);
      var registered: bool;
      if ToUpper(role) == "ADMIN" {
        registered := service.CreateUserWithHashedPassword(name, password, {"ADMIN"});
      } else {
        registered := service.CreateUserWithHashedPassword(name, password, {"USER"});
      }
      if !registered {
        return 400;
      }
      if !publishFails {
        sent := sent + [MemberEvent(name)];
      }
      status := 204;
    }
  }
}
