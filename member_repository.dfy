/** The member table: Spring Data's derived queries and the custom
    create/update operations, over an in-memory map keyed by the member's
    id. */
module MemberRepo {
  import opened Common
  import opened MemberDomain

  /** A member with exactly this username is stored. */
  predicate UsernameTaken(members: map<string, Member>, username: string) {
    exists k | k in members :: members[k].username == username
  }

  /** No two stored members share a username (the unique column). */
  predicate UniqueUsernames(members: map<string, Member>) {
    forall j, k | j in members && k in members && j != k :: members[j].username != members[k].username
  }

  /** What `createMember` checks before it persists: the trimmed username
      is not blank, the username has at most 50 characters, and the id is
      not blank. */
  predicate CreateGuard(username: string, id: string) {
    !IsBlank(Trim(username)) && |username| <= 50 && !IsBlank(id)
  }

  /** What `updateMember` and `updateUsername` check: the username is not
      empty (an all-space name passes) and has at most 50 characters. */
  predicate UpdateGuard(username: string) {
    0 < |username| <= 50
  }

  /** How a call of `createMember` ends. `Refused` is its `false`: the
      guard failed. `Thrown` is an exception out of the call: the member's
      id is assigned, so `persist` only queues its insert, which runs when
      the transaction commits, after the `try`; the primary key, bean
      validation and the unique username are checked then, and a failure
      rolls the insert back. */
  datatype CreateOutcome = Created | Refused | Thrown

  /** For a one-character username, the guard asks that the character is
      not Kotlin whitespace, the constraints that it lies above U+0020. */
  lemma OneCharUsername(c: char, id: string, books: map<string, Int32>, stamp: Option<int>)
    requires !IsBlank(id) && !TrimsToEmpty(id)
    ensures CreateGuard([c], id) <==> !IsWhitespace(c)
    ensures ValidMember(Member(id, [c], books, stamp)) <==> c > ' '
  {
    TrimKeepsBlank([c]);
  }

  /** Neither the guard nor the entity's constraints implies the other: a
      control-character username passes the guard and fails `@NotBlank`; a
      no-break-space username is blank to Kotlin but not to `@NotBlank`.
      So the commit can still refuse what the guard let through. */
  lemma GuardAndConstraintsDiffer(id: string, books: map<string, Int32>, stamp: Option<int>)
    requires !IsBlank(id) && !TrimsToEmpty(id)
    ensures CreateGuard("\U{1}", id) && !ValidMember(Member(id, "\U{1}", books, stamp))
    ensures !CreateGuard("\U{A0}", id) && ValidMember(Member(id, "\U{A0}", books, stamp))
  {
    OneCharUsername('\U{1}', id, books, stamp);
    OneCharUsername('\U{A0}', id, books, stamp);
  }

  class MemberRepository {
    /** The rows, keyed by id. */
    var members: map<string, Member>

    /** Every row is stored under its own id. */
    ghost predicate Valid()
      reads this
    {
      forall k | k in members :: members[k].id == k
    }

    constructor ()
      ensures Valid() && members == map[]
    {
      members := map[];
    }

    /** `CrudRepository.exists`. */
    function Exists(id: string): bool
      reads this
    {
      id in members
    }

    /** `CrudRepository.findOne`. */
    function FindOne(id: string): (r: Option<Member>)
      reads this
      ensures r.Some? <==> id in members
      ensures r.Some? ==> r.value == members[id]
    {
      if id in members then Some(members[id]) else None
    }

    /** `CrudRepository.findAll`, as the set of rows. */
    function FindAll(): set<Member>
      reads this
    {
      members.Values
    }

    /** Derived `findAllByUsername`: the rows whose username is exactly
        `username`. */
    function FindAllByUsername(username: string): set<Member>
      reads this
    {
      set m | m in members.Values && m.username == username
    }

    /** Derived `existsByUsername`. */
    predicate ExistsByUsername(username: string)
      reads this
    {
      UsernameTaken(members, username)
    }

    /** The two derived queries agree, and every row found has the name
        asked for. */
    lemma ExistsByUsernameIffFound(username: string)
      ensures ExistsByUsername(username) <==> FindAllByUsername(username) != {}
      ensures forall m | m in FindAllByUsername(username) :: m.username == username && m in FindAll()
    {
      if ExistsByUsername(username) {
        var k :| k in members && members[k].username == username;
        assert members[k] in FindAllByUsername(username);
      }
    }

    /** `createMember`: the guard, then `persist` of a member stamped with
        the clock reading `now`. A member whose id is already stored, that
        breaks its bean-validation constraints, or whose username is taken
        is refused when the transaction commits, and the exception leaves
        the call. Nothing else changes. */
    method CreateMember(username: string, books: map<string, Int32>, id: string, now: int)
      returns (outcome: CreateOutcome)
      requires Valid()
      modifies this
      ensures Valid()
      ensures outcome.Created? <==>
        && CreateGuard(username, id) && ValidMember(Member(id, username, books, Some(now)))
        && id !in old(members) && !UsernameTaken(old(members), username)
      ensures outcome.Refused? <==> !CreateGuard(username, id)
      ensures outcome.Thrown? <==>
        && CreateGuard(username, id)
        && (id in old(members) || !ValidMember(Member(id, username, books, Some(now))) || UsernameTaken(old(members), username))
      ensures outcome.Created? ==> members == old(members)[id := Member(id, username, books, Some(now))]
      ensures outcome.Created? ==> ValidMember(members[id])
      ensures !outcome.Created? ==> members == old(members)
      ensures UniqueUsernames(old(members)) ==> UniqueUsernames(members)
    {
      if IsBlank(Trim(username)) || |username| > 50 || IsBlank(id) {
        return Refused;
      }
      var entity := Member(id, username, books, Some(now));
      if id in members || !ValidMember(entity) || ExistsByUsername(username) {
        return Thrown;
      }
      members := members[id := entity];
      outcome := Created;
    }

    /** `updateMember`: an unknown id or a username that is empty or longer
        than 50 answer false with no change; otherwise the username and the
        whole book map are replaced. */
    method UpdateMember(username: string, books: map<string, Int32>, id: string) returns (ok: bool)
      requires Valid()
      modifies this
      ensures Valid()
      ensures ok <==> id in old(members) && UpdateGuard(username)
      ensures ok ==> members == old(members)[id := old(members)[id].(username := username, books := books)]
      ensures !ok ==> members == old(members)
    {
      if id !in members {
        return false;
      }
      if |username| == 0 || |username| > 50 {
        return false;
      }
      members := members[id := members[id].(username := username, books := books)];
      ok := true;
    }

    /** `updateUsername`: the same guards as `updateMember`; only the
        username changes. */
    method UpdateUsername(username: string, id: string) returns (ok: bool)
      requires Valid()
      modifies this
      ensures Valid()
      ensures ok <==> id in old(members) && UpdateGuard(username)
      ensures ok ==> members == old(members)[id := old(members)[id].(username := username)]
      ensures !ok ==> members == old(members)
    {
      if id !in members {
        return false;
      }
      if |username| == 0 || |username| > 50 {
        return false;
      }
      members := members[id := members[id].(username := username)];
      ok := true;
    }

    /** `addBook`: on an unknown id the lookup yields null and the write
        throws (false); otherwise `book` is mapped to `price`, added or
        overwritten, and the member's other books stay as they were. */
    method AddBook(id: string, book: string, price: Int32) returns (ok: bool)
      requires Valid()
      modifies this
      ensures Valid()
      ensures ok <==> id in old(members)
      ensures ok ==> members == old(members)[id := old(members)[id].(books := old(members)[id].books[book := price])]
      ensures !ok ==> members == old(members)
    {
      if id !in members {
        return false;
      }
      var entity := members[id];
      members := members[id := entity.(books := entity.books[book := price])];
      ok := true;
    }

    /** `CrudRepository.delete`: removes the row, or throws (false) when
        there is none. */
    method Delete(id: string) returns (ok: bool)
      requires Valid()
      modifies this
      ensures Valid()
      ensures ok <==> id in old(members)
      ensures members == old(members) - {id}
    {
      ok := id in members;
      members := members - {id};
    }
  }
}
