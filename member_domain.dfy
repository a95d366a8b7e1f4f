/** The member entity with the constraints its annotations declare, and the
    entity-to-record converter. */
module MemberDomain {
  import opened Common
  import opened Schema

  /** A stored member. The id is chosen by the caller (the gateway uses the
      username); `books` maps the name of each book the member offers to
      its asking price; `memberSince` is the clock reading at creation. */
  datatype Member = Member(
    id: string,
    username: string,
    books: map<string, Int32>,
    memberSince: Option<int>)

  /** The bean-validation constraints: `@NotBlank` on the id, `@NotBlank`
      and at most 50 characters on the username (uniqueness of the username
      is a property of the table, see MemberRepo). */
  predicate ValidMember(m: Member) {
    && !TrimsToEmpty(m.id)
    && !TrimsToEmpty(m.username) && |m.username| <= 50
  }

  /** The converter: every field copied into the optional record. */
  function Transform(m: Member): (d: MemberDto)
    ensures d.id == Some(m.id) && d.username == Some(m.username)
    ensures d.books == Some(m.books) && d.memberSince == m.memberSince
  {
    MemberDto(Some(m.username), Some(m.books), Some(m.id), m.memberSince)
  }

  /** The list converter. */
  function TransformAll(ms: seq<Member>): (ds: seq<MemberDto>)
    ensures |ds| == |ms|
    ensures forall i | 0 <= i < |ms| :: ds[i] == Transform(ms[i])
  {
    MapSeq(Transform, ms)
  }
}
