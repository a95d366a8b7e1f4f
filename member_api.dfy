/** The member service's REST and message handlers: the field check on
    incoming records, the merge-patch semantics as a pure function (with the
    additive merge of the book map), and the controller. */
module MemberApi {
  import opened Common
  import opened Json
  import opened Schema
  import opened MemberDomain
  import opened MemberRepo

  /** `isDtoFieldsNotNull`: username and id present and not blank, and a
      book map present. */
  predicate DtoFieldsNotNull(dto: MemberDto) {
    !IsNullOrBlank(dto.username) && !IsNullOrBlank(dto.id) && dto.books.Some?
  }

  // ---------------------------------------------------------------------
  // Merge patch
  // ---------------------------------------------------------------------

  /** What happens to a merge patch: the patched member, or the status the
      request ends with (400 for a rejected value, 500 for an exception the
      handler does not catch). */
  datatype PatchOutcome = Patched(member: Member) | Rejected(status: int)

  /** One entry of a patched book map becomes `value.toString().toInt()`:
      a number survives exactly when it fits an `Int` (see
      EntryNumberPrintedThenParsed), a string is parsed as it stands, and
      the text of null, a boolean, an array or an object ("null", "true",
      "[…]", "{…}") never parses, so the `NumberFormatException` escapes. */
  function EntryValue(v: Json): (r: Option<Int32>)
    ensures v.JText? ==> r == ParseInt(v.text)
    ensures v.JNum? ==> (r.Some? <==> MinInt32 <= v.num <= MaxInt32)
    ensures r.Some? && v.JNum? ==> r.value == v.num
    ensures !v.JText? && !v.JNum? ==> r.None?
  {
    match v
    case JNum(n) => if MinInt32 <= n <= MaxInt32 then Some(n) else None
    case JText(s) => ParseInt(s)
    case _ => None
  }

  /** The number case of EntryValue is what printing the number in decimal
      and parsing the text as an `Int` gives. */
  lemma EntryNumberPrintedThenParsed(n: int)
    ensures EntryValue(JNum(n)) == ParseInt(LongToString(n))
  {
    ParseIntegerRoundTrip(n, MinInt32, MaxInt32);
  }

  /** A null entry does not delete the key (as section 2 of RFC 7396 would
      have it): its text "null" does not parse, so the patch fails. */
  lemma NullEntryFails()
    ensures EntryValue(JNull).None?
  {
  }

  /** Every entry of a patched book map converted, or `None` when one of
      them cannot be. */
  function ConvertEntries(fields: map<string, Json>): (r: Option<map<string, Int32>>)
    ensures r.Some? <==> forall k | k in fields :: EntryValue(fields[k]).Some?
    ensures r.Some? ==> r.value.Keys == fields.Keys
    ensures r.Some? ==> forall k | k in fields :: r.value[k] == EntryValue(fields[k]).value
  {
    if forall k | k in fields :: EntryValue(fields[k]).Some?
    then Some(map k | k in fields :: EntryValue(fields[k]).value)
    else None
  }

  /** A map of converted entries covering every key is the conversion. */
  lemma ConvertedAll(fields: map<string, Json>, done: map<string, Int32>)
    requires done.Keys == fields.Keys
    requires forall k | k in done :: EntryValue(fields[k]) == Some(done[k])
    ensures ConvertEntries(fields) == Some(done)
  {
    var r := ConvertEntries(fields);
    assert r.Some?;
    assert r.value == done;
  }

  /** One entry that does not convert fails the whole conversion. */
  lemma NotAllConverted(fields: map<string, Json>, key: string)
    requires key in fields && EntryValue(fields[key]).None?
    ensures ConvertEntries(fields).None?
  {
  }

  /** The member a merge patch produces, before the repository's checks.
      `username` is mandatory: null keeps it, text replaces it, another
      type gives 400. `books`: null empties the map; an object's entries
      are written over the stored map (keys it omits stay); an object with
      an entry that does not convert, or a value that is not an object at
      all, ends in an exception (500). The username is decided first. */
  function PatchMember(m: Member, patch: Json): (r: PatchOutcome)
    ensures r.Patched? ==> r.member.id == m.id && r.member.memberSince == m.memberSince
    ensures r.Rejected? ==> r.status == 400 || r.status == 500
    ensures !patch.JObject? ==> r == Patched(m)
  {
    var username := MandatoryText(patch, "username");
    if username.Invalid? then Rejected(400)
    else
      var newUsername := Resolve(username, m.username);
      if !Has(patch, "books") then Patched(m.(username := newUsername))
      else match Get(patch, "books")
        case JNull => Patched(m.(username := newUsername, books := map[]))
        case JObject(fields) =>
          var entries := ConvertEntries(fields);
          if entries.None? then Rejected(500)
          else Patched(m.(username := newUsername, books := m.books + entries.value))
        case _ => Rejected(500)
  }

  /** The book-map policy of an accepted patch, entry by entry: absent keeps
      the map, null empties it, an object overwrites the keys it names with
      their converted values and keeps every other key. */
  lemma PatchBooksPolicy(m: Member, patch: Json)
    requires PatchMember(m, patch).Patched?
    ensures var r := PatchMember(m, patch).member;
      && (!Has(patch, "books") ==> r.books == m.books)
      && (Has(patch, "books") && Get(patch, "books").JNull? ==> r.books == map[])
      && (Has(patch, "books") && !Get(patch, "books").JNull? ==>
            var fields := Get(patch, "books").fields;
            && Get(patch, "books").JObject?
            && r.books.Keys == m.books.Keys + fields.Keys
            && (forall k | k in fields :: r.books[k] == EntryValue(fields[k]).value)
            && (forall k | k in m.books && k !in fields :: r.books[k] == m.books[k]))
  {
  }

  /** The username policy of an accepted patch: text replaces, absent or
      null keeps. A wrong type rejects the patch with 400, whatever the
      book map says. */
  lemma PatchUsernamePolicy(m: Member, patch: Json)
    ensures Has(patch, "username") && !TextOrNull(Get(patch, "username")) ==> PatchMember(m, patch) == Rejected(400)
    ensures PatchMember(m, patch).Patched? ==>
      PatchMember(m, patch).member.username ==
        (if Has(patch, "username") && Get(patch, "username").JText? then Get(patch, "username").text else m.username)
  {
  }

  /** Applying an accepted patch a second time changes nothing more: the
      merge of the book map is idempotent. */
  lemma {:induction false} PatchMemberIdempotent(m: Member, patch: Json)
    requires PatchMember(m, patch).Patched?
    ensures PatchMember(PatchMember(m, patch).member, patch) == PatchMember(m, patch)
  {
    var r := PatchMember(m, patch).member;
    if Has(patch, "books") && Get(patch, "books").JObject? {
      var entries := ConvertEntries(Get(patch, "books").fields).value;
      assert r.books + entries == r.books;
    }
  }

  /** Writing one more entry after the merge is merging one more entry. */
  lemma MergeStep(books: map<string, Int32>, done: map<string, Int32>, key: string, v: Int32)
    ensures (books + done)[key := v] == books + done[key := v]
  {
  }

  /** Adding a map to itself changes nothing. */
  lemma MergeSelf(m: map<string, Int32>)
    ensures m + m == m
  {
  }

  /** The loop of the handler over a patched book map: each entry, in
      whatever order the parsed map yields them, is converted and written
      into the member's map, and the first one that does not convert ends
      the request. The final `putAll(temp)` adds the map to itself, since
      `temp` is the same map object, and so changes nothing. The ghost
      results are the entries converted and, on failure, the key that did
      not convert. */
  method MergeLoop(books: map<string, Int32>, fields: map<string, Json>)
    returns (r: Option<map<string, Int32>>, ghost done: map<string, Int32>, ghost bad: string)
    ensures r.None? ==> bad in fields && EntryValue(fields[bad]).None?
    ensures r.Some? ==>
      && done.Keys == fields.Keys
      && (forall k | k in done :: EntryValue(fields[k]) == Some(done[k]))
      && r.value == books + done
  {
    var current := books;
    var rest := fields.Keys;
    done, bad := map[], "";
    while rest != {}
      invariant rest <= fields.Keys
      invariant done.Keys == fields.Keys - rest
      invariant forall k | k in done :: EntryValue(fields[k]) == Some(done[k])
      invariant current == books + done
      decreases |rest|
    {
      var key :| key in rest;
      var value := EntryValue(fields[key]);
      if value.None? {
        r, bad := None, key;
        return;
      }
      MergeStep(books, done, key, value.value);
      current := current[key := value.value];
      done := done[key := value.value];
      rest := rest - {key};
    }
    // `temp` is taken before the loop but aliases the member's map, so
    // what `putAll` reads is the map as the loop left it.
    var temp := current;
    MergeSelf(temp);
    current := current + temp;
    r := Some(current);
  }

  /** The loop computes the merge PatchMember specifies: no map when an
      entry does not convert, otherwise the stored map overwritten with the
      converted entries. */
  method MergeBookEntries(books: map<string, Int32>, fields: map<string, Json>)
    returns (r: Option<map<string, Int32>>)
    ensures ConvertEntries(fields).None? ==> r.None?
    ensures ConvertEntries(fields).Some? ==> r == Some(books + ConvertEntries(fields).value)
  {
    ghost var done: map<string, Int32>, bad: string;
    r, done, bad := MergeLoop(books, fields);
    if r.None? {
      NotAllConverted(fields, bad);
    } else {
      ConvertedAll(fields, done);
    }
  }

  /** What the repository's `createMember` needs to store a member with no
      books stamped `now`: its own guard, and the entity's constraints that
      the commit checks. */
  predicate Creatable(username: string, id: string, now: int) {
    CreateGuard(username, id) && ValidMember(Member(id, username, map[], Some(now)))
  }

  // ---------------------------------------------------------------------
  // The controller
  // ---------------------------------------------------------------------

  class MemberController {
    const repo: MemberRepository

    constructor (repo: MemberRepository)
      ensures this.repo == repo
    {
      this.repo := repo;
    }

    /** The listener on the member queue: the username is lowercased and
        the member starts with no books; a missing username or id, a
        repository refusal and an exception from the commit (such as a
        duplicate id) are all swallowed. */
    method CreateMemberRabbit(dto: MemberDto, now: int)
      requires repo.Valid()
      modifies repo
      ensures repo.Valid()
      ensures dto.username.Some? && dto.id.Some? &&
              Creatable(ToLower(dto.username.value), dto.id.value, now) &&
              dto.id.value !in old(repo.members) &&
              !UsernameTaken(old(repo.members), ToLower(dto.username.value))
        ==> repo.members == old(repo.members)[dto.id.value := Member(dto.id.value, ToLower(dto.username.value), map[], Some(now))]
      ensures !(dto.username.Some? && dto.id.Some? &&
              Creatable(ToLower(dto.username.value), dto.id.value, now) &&
              dto.id.value !in old(repo.members) &&
              !UsernameTaken(old(repo.members), ToLower(dto.username.value)))
        ==> repo.members == old(repo.members)
    {
      if dto.username.None? || dto.id.None? {
        return;
      }
      var _ := repo.CreateMember(ToLower(dto.username.value), map[], dto.id.value, now);
    }

    /** POST /members as written: a failed field check gives 400; the
        username is lowercased, and an existing one gives 409. The
        repository's boolean is not looked at, so a refusal still answers
        201; only an exception out of the commit (an id already stored, or a
        member that breaks its constraints) reaches the `catch` and gives
        400. The member is stored with no books, whatever the body held. */
    method CreateMemberAsWritten(dto: MemberDto, now: int) returns (status: int)
      requires repo.Valid()
      modifies repo
      ensures repo.Valid()
      ensures !DtoFieldsNotNull(dto) ==> status == 400 && repo.members == old(repo.members)
      ensures DtoFieldsNotNull(dto) && UsernameTaken(old(repo.members), ToLower(dto.username.value))
        ==> status == 409 && repo.members == old(repo.members)
      ensures DtoFieldsNotNull(dto) && !UsernameTaken(old(repo.members), ToLower(dto.username.value)) ==>
        var u, id := ToLower(dto.username.value), dto.id.value;
        && (status == 400 <==> CreateGuard(u, id) && (id in old(repo.members) || !ValidMember(Member(id, u, map[], Some(now)))))
        && (status != 400 ==> status == 201)
      ensures status == 201 && dto.id.value !in old(repo.members) && Creatable(ToLower(dto.username.value), dto.id.value, now)
        ==> repo.members == old(repo.members)[dto.id.value := Member(dto.id.value, ToLower(dto.username.value), map[], Some(now))]
      ensures !(status == 201 && dto.id.value !in old(repo.members) && Creatable(ToLower(dto.username.value), dto.id.value, now))
        ==> repo.members == old(repo.members)
    {
      if !DtoFieldsNotNull(dto) {
        return 400;
      }
      var username := ToLower(dto.username.value);
      if repo.ExistsByUsername(username) {
        return 409;
      }
      var outcome := repo.CreateMember(username, map[], dto.id.value, now);
      if outcome.Thrown? {
        return 400;
      }
      status := 201;
    }

    /** POST /members with the repository's answer checked: the same checks,
        then 400 when the repository refuses. A 201 now always means the
        member is stored, under the body's id, with the lowercased name. */
    method CreateMember(dto: MemberDto, now: int) returns (status: int)
      requires repo.Valid()
      modifies repo
      ensures repo.Valid()
      ensures status in {201, 400, 409}
      ensures !DtoFieldsNotNull(dto) ==> status == 400
      ensures status == 409 <==> DtoFieldsNotNull(dto) && UsernameTaken(old(repo.members), ToLower(dto.username.value))
      ensures status == 201 <==>
        && DtoFieldsNotNull(dto)
        && !UsernameTaken(old(repo.members), ToLower(dto.username.value))
        && Creatable(ToLower(dto.username.value), dto.id.value, now)
        && dto.id.value !in old(repo.members)
      ensures status == 201 ==>
        repo.members == old(repo.members)[dto.id.value := Member(dto.id.value, ToLower(dto.username.value), map[], Some(now))]
      ensures status != 201 ==> repo.members == old(repo.members)
    {
      if !DtoFieldsNotNull(dto) {
        return 400;
      }
      var username := ToLower(dto.username.value);
      if repo.ExistsByUsername(username) {
        return 409;
      }
      var outcome := repo.CreateMember(username, map[], dto.id.value, now);
      if !outcome.Created? {
        return 400;
      }
      status := 201;
    }

    /** GET /members[?username=]: the filter is lowercased and matched
        exactly; without it every member is listed. */
    method GetAllMembers(username: Option<string>) returns (status: int, body: seq<MemberDto>)
      requires repo.Valid()
      ensures status == 200
      ensures var rows := if username.Some? then repo.FindAllByUsername(ToLower(username.value)) else repo.FindAll();
        && |body| == |rows|
        && (forall m | m in rows :: Transform(m) in body)
        && (forall i | 0 <= i < |body| :: exists m | m in rows :: body[i] == Transform(m))
    {
      var rows := if username.Some? then repo.FindAllByUsername(ToLower(username.value)) else repo.FindAll();
      var list := Enumerate(rows);
      body := TransformAll(list);
      status := 200;
    }

    /** GET /members/{id}: a blank id gives 400, an unknown one 404,
        otherwise 200 with the member. */
    method GetMemberById(pathId: string) returns (status: int, body: Option<MemberDto>)
      ensures IsBlank(pathId) ==> status == 400 && body.None?
      ensures !IsBlank(pathId) && pathId !in repo.members ==> status == 404 && body.None?
      ensures status == 200 <==> !IsBlank(pathId) && pathId in repo.members
      ensures status == 200 ==> body == Some(Transform(repo.members[pathId]))
    {
      if IsBlank(pathId) {
        return 400, None;
      }
      var dto := repo.FindOne(pathId);
      if dto.None? {
        return 404, None;
      }
      status, body := 200, Some(Transform(dto.value));
    }

    /** PUT /members/{id}, checks in this order: blank id 400; a body id
        other than the path 409; unknown id 404; failed field check 400;
        the repository's refusal (a username over 50 characters) 400;
        otherwise 204 with username and book map replaced. The username is
        not lowercased here. */
    method UpdateMember(pathId: string, dto: MemberDto) returns (status: int)
      requires repo.Valid()
      modifies repo
      ensures repo.Valid()
      ensures status in {204, 400, 404, 409}
      ensures IsBlank(pathId) ==> status == 400
      ensures !IsBlank(pathId) && dto.id != Some(pathId) ==> status == 409
      ensures !IsBlank(pathId) && dto.id == Some(pathId) && pathId !in old(repo.members) ==> status == 404
      ensures !IsBlank(pathId) && dto.id == Some(pathId) && pathId in old(repo.members) && !DtoFieldsNotNull(dto)
        ==> status == 400
      ensures status == 204 <==>
        && !IsBlank(pathId) && dto.id == Some(pathId) && pathId in old(repo.members)
        && DtoFieldsNotNull(dto) && |dto.username.value| <= 50
      ensures status == 204 ==>
        repo.members == old(repo.members)[pathId :=
          old(repo.members)[pathId].(username := dto.username.value, books := dto.books.value)]
      ensures status != 204 ==> repo.members == old(repo.members)
    {
      if IsBlank(pathId) {
        return 400;
      }
      if dto.id != Some(pathId) {
        return 409;
      }
      if !repo.Exists(pathId) {
        return 404;
      }
      if !DtoFieldsNotNull(dto) {
        return 400;
      }
      var successful := repo.UpdateMember(dto.username.value, dto.books.value, dto.id.value);
      if !successful {
        return 400;
      }
      status := 204;
    }

    /** PATCH /members/{id}/username with a text body: blank id 400,
        unknown id 404, blank username 400, one over 50 characters 400,
        otherwise 204 and only the username changes (not lowercased). */
    method UpdateUsername(pathId: string, username: string) returns (status: int)
      requires repo.Valid()
      modifies repo
      ensures repo.Valid()
      ensures status in {204, 400, 404}
      ensures IsBlank(pathId) ==> status == 400
      ensures !IsBlank(pathId) && pathId !in old(repo.members) ==> status == 404
      ensures status == 204 <==>
        !IsBlank(pathId) && pathId in old(repo.members) && !IsBlank(username) && |username| <= 50
      ensures status == 204 ==>
        repo.members == old(repo.members)[pathId := old(repo.members)[pathId].(username := username)]
      ensures status != 204 ==> repo.members == old(repo.members)
    {
      if IsBlank(pathId) {
        return 400;
      }
      if !repo.Exists(pathId) {
        return 404;
      }
      if IsBlank(username) {
        return 400;
      }
      var ok := repo.UpdateUsername(username, pathId);
      if !ok {
        return 400;
      }
      status := 204;
    }

    /** PATCH /members/{id} with `application/merge-patch+json`, `patch`
        being the parsed body or `None`. Checks in this order: unknown id
        404, unparsable body 400, an `id` key 409, then the field decisions
        of PatchMember (400, or 500 for an exception), then the repository
        update (its refusal 400). Nothing is written unless the answer is
        204. */
    method MergePatchMember(id: string, patch: Option<Json>) returns (status: int)
      requires repo.Valid()
      modifies repo
      ensures repo.Valid()
      ensures status in {204, 400, 404, 409, 500}
      ensures id !in old(repo.members) ==> status == 404
      ensures id in old(repo.members) && patch.None? ==> status == 400
      ensures id in old(repo.members) && patch.Some? && Has(patch.value, "id") ==> status == 409
      ensures id in old(repo.members) && patch.Some? && !Has(patch.value, "id") &&
              PatchMember(old(repo.members)[id], patch.value).Rejected?
        ==> status == PatchMember(old(repo.members)[id], patch.value).status
      ensures status == 204 <==>
        && id in old(repo.members) && patch.Some? && !Has(patch.value, "id")
        && var r := PatchMember(old(repo.members)[id], patch.value);
           r.Patched? && UpdateGuard(r.member.username)
      ensures status == 204 ==>
        repo.members == old(repo.members)[id := PatchMember(old(repo.members)[id], patch.value).member]
      ensures status != 204 ==> repo.members == old(repo.members)
    {
      var found := repo.FindOne(id);
      if found.None? {
        return 404;
      }
      var dto := found.value;
      if patch.None? {
        return 400;
      }
      var jsonNode := patch.value;
      if Has(jsonNode, "id") {
        return 409;
      }

      // A mandatory field keeps its old value on null.
      var ok, newUsername := ReadMandatoryText(jsonNode, "username", dto.username);
      if !ok {
        return 400;
      }
      var newBooks := dto.books;
      if Has(jsonNode, "books") {
        var booksNode := Get(jsonNode, "books");
        if booksNode.JNull? {
          newBooks := map[];
        } else if booksNode.JObject? {
          var merged := MergeBookEntries(dto.books, booksNode.fields);
          if merged.None? {
            return 500;
          }
          newBooks := merged.value;
        } else {
          // `convertValue` cannot make a map of this node.
          return 500;
        }
      }

      assert PatchMember(dto, jsonNode) == Patched(dto.(username := newUsername, books := newBooks));
      var successful := repo.UpdateMember(newUsername, newBooks, dto.id);
      if !successful {
        return 400;
      }
      status := 204;
    }

    /** DELETE /members/{id}: blank id 400; no such member 404 (the
        repository's exception); otherwise 204 and the row removed. */
    method DeleteMember(pathId: string) returns (status: int)
      requires repo.Valid()
      modifies repo
      ensures repo.Valid()
      ensures status in {204, 400, 404}
      ensures IsBlank(pathId) ==> status == 400 && repo.members == old(repo.members)
      ensures status == 204 <==> !IsBlank(pathId) && pathId in old(repo.members)
      ensures !IsBlank(pathId) ==> repo.members == old(repo.members) - {pathId}
    {
      if IsBlank(pathId) {
        return 400;
      }
      var ok := repo.Delete(pathId);
      if !ok {
        return 404;
      }
      status := 204;
    }

    /** POST /members/{id}/books. `lookupStatus` is the status of the call
        that fetches the book by name from the book service and
        `forwardStatus` that of the call that posts the listing to it;
        `forwarded` says whether the second call was made. Checks in this
        order: unknown member 404; a book name already in the member's map
        409; a missing price is dereferenced (500); a price of at most 0, a
        seller other than the member's username or a blank name 400; a
        failed lookup 400 (no forward); a failed forward 400; otherwise the
        name is mapped to the price and the answer is 200. */
    method AddBookToMember(id: string, sale: BookForSaleDto, lookupStatus: int, forwardStatus: int)
      returns (status: int, forwarded: bool)
      requires repo.Valid()
      modifies repo
      ensures repo.Valid()
      ensures status in {200, 400, 404, 409, 500}
      ensures id !in old(repo.members) ==> status == 404
      ensures id in old(repo.members) && sale.name.Some? && sale.name.value in old(repo.members)[id].books
        ==> status == 409
      ensures var passes :=
        && id in old(repo.members)
        && !(sale.name.Some? && sale.name.value in old(repo.members)[id].books)
        && sale.price.Some? && sale.price.value > 0
        && sale.soldBy == Some(old(repo.members)[id].username)
        && !IsNullOrBlank(sale.name);
        && (forwarded <==> passes && lookupStatus == 200)
        && (status == 200 <==> passes && lookupStatus == 200 && forwardStatus == 200)
      ensures status == 200 ==>
        repo.members == old(repo.members)[id := old(repo.members)[id].(books :=
          old(repo.members)[id].books[sale.name.value := sale.price.value])]
      ensures status != 200 ==> repo.members == old(repo.members)
    {
      forwarded := false;
      if !repo.Exists(id) {
        return 404, forwarded;
      }
      var member := repo.FindOne(id).value;
      if sale.name.Some? && sale.name.value in member.books {
        return 409, forwarded;
      }
      if sale.price.None? {
        return 500, forwarded;
      }
      if sale.price.value <= 0 || sale.soldBy != Some(member.username) || IsNullOrBlank(sale.name) {
        return 400, forwarded;
      }
      if lookupStatus != 200 {
        return 400, forwarded;
      }
      forwarded := true;
      if forwardStatus != 200 {
        return 400, forwarded;
      }
      var ok := repo.AddBook(id, sale.name.value, sale.price.value);
      if ok {
        status := 200;
      } else {
        status := 400;
      }
    }
  }

  /** The exhibit for the unchecked repository answer: a well-formed body
      whose username has 51 characters passes the field check and the
      uniqueness check, the repository refuses it, and the as-written
      handler still answers 201 with no member stored. The corrected
      handler answers 400 on the same body. */
  method LongUsernameExhibit() returns (asWritten: int, corrected: int, storedAsWritten: bool)
    ensures asWritten == 201 && !storedAsWritten
    ensures corrected == 400
  {
    var name := seq(51, i => 'a');
    var dto := MemberDto(Some(name), Some(map[]), Some("m1"), None);
    assert !IsBlank(name) by { assert !IsWhitespace(name[0]); }
    assert !IsBlank("m1") by { assert !IsWhitespace("m1"[0]); }
    assert ToLower(name) == name by {
      assert forall i | 0 <= i < |name| :: ToLower(name)[i] == name[i];
    }
    var repo1 := new MemberRepository();
    var c1 := new MemberController(repo1);
    asWritten := c1.CreateMemberAsWritten(dto, 0);
    storedAsWritten := "m1" in repo1.members;
    var repo2 := new MemberRepository();
    var c2 := new MemberController(repo2);
    corrected := c2.CreateMember(dto, 0);
  }

  /** A username made of a control character passes the handler's field
      check and the repository's guard, but not `@NotBlank`: the commit
      throws, the `catch` answers 400, and nothing is stored. */
  method ControlCharUsernameExhibit() returns (status: int, stored: bool)
    ensures status == 400 && !stored
  {
    var dto := MemberDto(Some("\U{1}"), Some(map[]), Some("m1"), None);
    assert !IsBlank("\U{1}") by { assert !IsWhitespace("\U{1}"[0]); }
    assert !IsBlank("m1") by { assert !IsWhitespace("m1"[0]); }
    assert ToLower("\U{1}") == "\U{1}" by { assert ToLower("\U{1}")[0] == "\U{1}"[0]; }
    OneCharUsername('\U{1}', "m1", map[], Some(0));
    var repo := new MemberRepository();
    var c := new MemberController(repo);
    status := c.CreateMemberAsWritten(dto, 0);
    stored := "m1" in repo.members;
  }

  /** The facts about the strings of DuplicateIdExhibit, kept apart so
      that the exhibit reasons only about the calls. */
  lemma DuplicateIdInputs()
    ensures ToLower("cd") == "cd"
    ensures CreateGuard("cd", "m1")
    ensures DtoFieldsNotNull(MemberDto(Some("cd"), Some(map[]), Some("m1"), None))
  {
    assert ToLower("cd")[0] == "cd"[0] && ToLower("cd")[1] == "cd"[1];
    assert !IsWhitespace("cd"[0]) && !IsWhitespace("m1"[0]);
    TrimKeepsBlank("cd");
  }

  /** A body whose id is already stored, whose username no member holds,
      passes the field check, the uniqueness check and the repository's
      guard; the primary key is refused at commit, the `catch` answers 400,
      and the stored members are left as they were. */
  method DuplicateIdExhibit(repo: MemberRepository) returns (status: int)
    requires repo.Valid() && "m1" in repo.members && !UsernameTaken(repo.members, "cd")
    modifies repo
    ensures status == 400 && repo.members == old(repo.members)
  {
    DuplicateIdInputs();
    var c := new MemberController(repo);
    status := c.CreateMemberAsWritten(MemberDto(Some("cd"), Some(map[]), Some("m1"), None), 0);
  }
}
