/** The book service's REST handlers: the field check on incoming records,
    the merge-patch semantics as a pure function, and the controller whose
    handlers run their checks in the source's order over the repository. */
module BookApi {
  import opened Common
  import opened Json
  import opened Schema
  import opened BookDomain
  import opened BookRepo

  /** `isDtoFieldsNotNull`: the four text fields are present and not blank,
      price is present and not 0, rating is present, not 0 and at most 5.
      A negative price or rating passes this check. */
  predicate DtoFieldsNotNull(dto: BookDto) {
    && !IsNullOrBlank(dto.name)
    && !IsNullOrBlank(dto.description)
    && !IsNullOrBlank(dto.genre)
    && !IsNullOrBlank(dto.author)
    && dto.price.Some? && dto.price.value != 0
    && dto.rating.Some? && dto.rating.value != 0 && dto.rating.value <= 5
  }

  /** The entity a POST hands to the repository, before it has an id. */
  function NewBook(dto: BookDto): (b: Book)
    requires DtoFieldsNotNull(dto)
    ensures b.id.None? && dto.name == Some(b.name)
    ensures Transform(b).(id := dto.id) == dto
  {
    Book(dto.name.value, dto.description, dto.genre, dto.author, dto.price, dto.rating, None)
  }

  /** For a record that passes the field check, the store accepts the entity
      exactly when the name is not empty once trimmed (the check's Kotlin
      blank test and `@NotBlank` disagree on control characters), the
      lengths fit, the price is positive and the rating is 1..5: the field
      check and the entity constraints together. */
  lemma CreatableExactly(dto: BookDto)
    requires DtoFieldsNotNull(dto)
    ensures ValidBook(NewBook(dto)) <==>
      && !TrimsToEmpty(dto.name.value)
      && |dto.name.value| <= 50
      && |dto.description.value| <= 250
      && |dto.genre.value| <= 50
      && |dto.author.value| <= 50
      && dto.price.value >= 1
      && 1 <= dto.rating.value <= 5
  {
    var n := dto.name.value;
    var d := dto.description.value;
    var g := dto.genre.value;
    assert !IsBlank(n) ==> |n| >= 1;
    assert !IsBlank(d) ==> |d| >= 1;
    assert !IsBlank(g) ==> |g| >= 1;
  }

  /** What a GET returns after a successful POST: the posted fields, and the
      generated id as text. */
  lemma CreatedBookReadsBack(dto: BookDto, id: Int64)
    requires DtoFieldsNotNull(dto)
    ensures Transform(NewBook(dto).(id := Some(id))) == dto.(id := Some(LongToString(id)))
    ensures ParseLong(Transform(NewBook(dto).(id := Some(id))).id.value) == Some(id)
  {
    TransformIdRoundTrip(NewBook(dto).(id := Some(id)));
  }

  /** What a PUT writes for a record that passed every check. */
  function ReplacedBook(dto: BookDto, id: Int64): (b: Book)
    requires DtoFieldsNotNull(dto)
    ensures b.id == Some(id)
    ensures Transform(b) == dto.(id := Some(LongToString(id)))
  {
    NewBook(dto).(id := Some(id))
  }

  // ---------------------------------------------------------------------
  // Merge patch
  // ---------------------------------------------------------------------

  /** The patch gives each of the six fields a value of an accepted JSON
      type: text or null for the text fields, a number or null for price
      and rating. Other keys are ignored. */
  predicate WellTypedBookPatch(patch: Json) {
    && (Has(patch, "name") ==> TextOrNull(Get(patch, "name")))
    && (Has(patch, "description") ==> TextOrNull(Get(patch, "description")))
    && (Has(patch, "author") ==> TextOrNull(Get(patch, "author")))
    && (Has(patch, "genre") ==> TextOrNull(Get(patch, "genre")))
    && (Has(patch, "price") ==> NumberOrNull(Get(patch, "price")))
    && (Has(patch, "rating") ==> NumberOrNull(Get(patch, "rating")))
  }

  /** The book a merge patch produces, before the repository's own checks,
      or `None` when some field has a value of the wrong type. The name is
      mandatory (null keeps it); the other five fields are cleared by null. */
  function PatchBook(b: Book, patch: Json): (r: Option<Book>)
    ensures r.Some? ==> r.value.id == b.id
    ensures !patch.JObject? ==> r == Some(b)
  {
    var name := MandatoryText(patch, "name");
    var description := NullableText(patch, "description");
    var author := NullableText(patch, "author");
    var genre := NullableText(patch, "genre");
    var price := NullableNumber(patch, "price");
    var rating := NullableNumber(patch, "rating");
    if name.Invalid? || description.Invalid? || author.Invalid? || genre.Invalid?
       || price.Invalid? || rating.Invalid?
    then None
    else Some(Book(
      Resolve(name, b.name),
      Resolve(description, b.description),
      Resolve(genre, b.genre),
      Resolve(author, b.author),
      Resolve(price, b.price),
      Resolve(rating, b.rating),
      b.id))
  }

  /** A patch is rejected exactly when one of the six fields has a value of
      the wrong JSON type, whatever the other fields say. */
  lemma PatchRejectsExactlyWrongTypes(b: Book, patch: Json)
    ensures PatchBook(b, patch).Some? <==> WellTypedBookPatch(patch)
  {
  }

  /** The value each field ends up with after an accepted patch: an absent
      key keeps the field; `null` keeps the name but clears the other five;
      a value of the right type replaces the field, a number narrowed to its
      low 32 bits. */
  lemma PatchFieldPolicy(b: Book, patch: Json)
    requires PatchBook(b, patch).Some?
    ensures var r := PatchBook(b, patch).value;
      && r.name == (if Has(patch, "name") && Get(patch, "name").JText? then Get(patch, "name").text else b.name)
      && r.description == (if !Has(patch, "description") then b.description
                           else if Get(patch, "description").JNull? then None
                           else Some(Get(patch, "description").text))
      && r.genre == (if !Has(patch, "genre") then b.genre
                     else if Get(patch, "genre").JNull? then None
                     else Some(Get(patch, "genre").text))
      && r.author == (if !Has(patch, "author") then b.author
                      else if Get(patch, "author").JNull? then None
                      else Some(Get(patch, "author").text))
      && r.price == (if !Has(patch, "price") then b.price
                     else if Get(patch, "price").JNull? then None
                     else Some(IntValue(Get(patch, "price").num)))
      && r.rating == (if !Has(patch, "rating") then b.rating
                      else if Get(patch, "rating").JNull? then None
                      else Some(IntValue(Get(patch, "rating").num)))
      && r.id == b.id
  {
  }

  /** Applying an accepted patch a second time changes nothing more. */
  lemma {:induction false} PatchIdempotent(b: Book, patch: Json)
    requires PatchBook(b, patch).Some?
    ensures PatchBook(PatchBook(b, patch).value, patch) == PatchBook(b, patch)
  {
    var r := PatchBook(b, patch).value;
    PatchFieldPolicy(b, patch);
    PatchRejectsExactlyWrongTypes(b, patch);
    PatchRejectsExactlyWrongTypes(r, patch);
    PatchFieldPolicy(r, patch);
  }

  /** An empty patch object changes nothing. */
  lemma EmptyPatchIsIdentity(b: Book)
    ensures PatchBook(b, JObject(map[])) == Some(b)
  {
    assert !Has(JObject(map[]), "name");
  }

  /** The field-by-field decisions of the merge-patch handler, made on
      mutable locals in the handler's order: each local starts as the
      stored value and is overwritten by its key, and a value of the wrong
      type ends the patch. */
  method ApplyPatchFields(dto: Book, jsonNode: Json) returns (patched: Option<Book>)
    ensures patched == PatchBook(dto, jsonNode)
  {
    var ok: bool;
    var newName, newDescription, newGenre, newAuthor, newPrice, newRating;
    // A mandatory field keeps its old value on null.
    ok, newName := ReadMandatoryText(jsonNode, "name", dto.name);
    if !ok { return None; }
    ok, newDescription := ReadNullableText(jsonNode, "description", dto.description);
    if !ok { return None; }
    ok, newAuthor := ReadNullableText(jsonNode, "author", dto.author);
    if !ok { return None; }
    ok, newGenre := ReadNullableText(jsonNode, "genre", dto.genre);
    if !ok { return None; }
    ok, newPrice := ReadNullableNumber(jsonNode, "price", dto.price);
    if !ok { return None; }
    ok, newRating := ReadNullableNumber(jsonNode, "rating", dto.rating);
    if !ok { return None; }
    patched := Some(Book(newName, newDescription, newGenre, newAuthor, newPrice, newRating, dto.id));
  }

  // ---------------------------------------------------------------------
  // The controller
  // ---------------------------------------------------------------------

  class BookController {
    const repo: BookRepository

    constructor (repo: BookRepository)
      ensures this.repo == repo
    {
      this.repo := repo;
    }

    /** POST /books. A record carrying an id, or failing the field check,
        gives 400; so does every persistence failure. Otherwise 201 and the
        new id, under which the posted fields are stored. */
    method CreateBook(dto: BookDto) returns (status: int, savedId: Option<Int64>)
      requires repo.Valid()
      modifies repo
      ensures repo.Valid()
      ensures status == 201 || status == 400
      ensures status == 201 <==>
        && IsNullOrEmpty(dto.id) && DtoFieldsNotNull(dto)
        && ValidBook(NewBook(dto))
        && !NameTaken(old(repo.books), dto.name.value)
        && old(repo.nextId) <= MaxInt64
      ensures status == 201 ==>
        && savedId.Some? && savedId.value !in old(repo.books)
        && repo.books == old(repo.books)[savedId.value := NewBook(dto).(id := savedId)]
      ensures status == 400 ==> savedId.None? && repo.books == old(repo.books)
    {
      if !IsNullOrEmpty(dto.id) {
        return 400, None;
      }
      if !DtoFieldsNotNull(dto) {
        return 400, None;
      }
      var outcome := repo.CreateBook(dto.name.value, dto.description, dto.genre,
                                     dto.author, dto.price, dto.rating);
      if !outcome.Stored? {
        return 400, None;
      }
      status, savedId := 201, Some(outcome.value);
    }

    /** GET /books[?name=]: every stored book, or every book with exactly
        that name, each converted once, in no particular order. */
    method GetAllBooks(name: Option<string>) returns (status: int, body: seq<BookDto>)
      requires repo.Valid()
      ensures status == 200
      ensures var rows := if name.Some? then repo.FindAllByName(name.value) else repo.FindAll();
        && |body| == |rows|
        && (forall b | b in rows :: Transform(b) in body)
        && (forall i | 0 <= i < |body| :: exists b | b in rows :: body[i] == Transform(b))
    {
      var rows := if name.Some? then repo.FindAllByName(name.value) else repo.FindAll();
      var list := Enumerate(rows);
      body := TransformAll(list);
      status := 200;
    }

    /** GET /books/{id}: a path that is not a `Long` gives 400, an unknown id
        404, otherwise 200 with the converted book. */
    method GetBookById(pathId: string) returns (status: int, body: Option<BookDto>)
      ensures ParseLong(pathId).None? ==> status == 400 && body.None?
      ensures ParseLong(pathId).Some? && ParseLong(pathId).value !in repo.books ==> status == 404 && body.None?
      ensures status == 200 <==> ParseLong(pathId).Some? && ParseLong(pathId).value in repo.books
      ensures status == 200 ==> body == Some(Transform(repo.books[ParseLong(pathId).value]))
    {
      var parsed := ParseLong(pathId);
      if parsed.None? {
        return 400, None;
      }
      var dto := repo.FindOne(parsed.value);
      if dto.None? {
        return 404, None;
      }
      status, body := 200, Some(Transform(dto.value));
    }

    /** GET /books/name/{name}: 404 when no book has exactly that name,
        otherwise 200 with one of them (names are unique in the table, so
        it is the one). */
    method GetBookByName(name: string) returns (status: int, body: Option<BookDto>)
      ensures status == 404 <==> !repo.ExistsByName(name)
      ensures status == 404 || status == 200
      ensures status == 404 ==> body.None?
      ensures status == 200 ==> exists k | k in repo.books :: repo.books[k].name == name && body == Some(Transform(repo.books[k]))
    {
      repo.ExistsByNameIffFound(name);
      var matches := repo.FindAllByName(name);
      if matches == {} {
        return 404, None;
      }
      var first :| first in matches;
      status, body := 200, Some(Transform(first));
    }

    /** PUT /books/{id}, checks in this order: a path that is not a `Long`
        gives 404; a body id other than the path text 409; an unknown id
        404; a failed field check 400; the repository's refusal (a negative
        price or rating) 400; otherwise 204 and all six fields replaced. */
    method UpdateBook(pathId: string, dto: BookDto) returns (status: int)
      requires repo.Valid()
      modifies repo
      ensures repo.Valid() && repo.nextId == old(repo.nextId)
      ensures ParseLong(pathId).None? ==> status == 404
      ensures ParseLong(pathId).Some? && dto.id != Some(pathId) ==> status == 409
      ensures ParseLong(pathId).Some? && dto.id == Some(pathId) && ParseLong(pathId).value !in old(repo.books)
        ==> status == 404
      ensures ParseLong(pathId).Some? && dto.id == Some(pathId) && ParseLong(pathId).value in old(repo.books)
              && !DtoFieldsNotNull(dto)
        ==> status == 400
      ensures status == 204 <==>
        && ParseLong(pathId).Some? && dto.id == Some(pathId)
        && ParseLong(pathId).value in old(repo.books)
        && DtoFieldsNotNull(dto) && dto.price.value >= 1 && dto.rating.value >= 1
      ensures status == 204 ==>
        repo.books == old(repo.books)[ParseLong(pathId).value := ReplacedBook(dto, ParseLong(pathId).value)]
      ensures status != 204 ==> repo.books == old(repo.books)
      ensures status in {204, 400, 404, 409}
    {
      var parsed := ParseLong(pathId);
      if parsed.None? {
        return 404;
      }
      var id := parsed.value;
      if dto.id != Some(pathId) {
        return 409;
      }
      if !repo.Exists(id) {
        return 404;
      }
      if !DtoFieldsNotNull(dto) {
        return 400;
      }
      var successful := repo.UpdateBook(dto.name.value, dto.description, dto.genre,
                                        dto.author, dto.price, dto.rating, ParseLong(dto.id.value).value);
      if !successful {
        return 400;
      }
      status := 204;
    }

    /** PATCH /books/{id}/price with a text body: a body that is not an
        `Int` counts as price 0; an unknown id gives 404; a price outside
        0..1000 gives 400; otherwise 204 and only the price changes. */
    method UpdatePrice(id: Int64, price: string) returns (status: int)
      requires repo.Valid()
      modifies repo
      ensures repo.Valid() && repo.nextId == old(repo.nextId)
      ensures var p := if ParseInt(price).Some? then ParseInt(price).value else 0;
        && (id !in old(repo.books) ==> status == 404)
        && (id in old(repo.books) && !(0 <= p <= 1000) ==> status == 400)
        && (status == 204 <==> id in old(repo.books) && 0 <= p <= 1000)
        && (status == 204 ==> repo.books == old(repo.books)[id := old(repo.books)[id].(price := Some(p))])
      ensures status != 204 ==> repo.books == old(repo.books)
      ensures status in {204, 400, 404}
    {
      var priceToInt: Int32 := 0;
      var parsed := ParseInt(price);
      if parsed.Some? {
        priceToInt := parsed.value;
      }
      if !repo.Exists(id) {
        return 404;
      }
      if priceToInt < 0 || priceToInt > 1000 {
        return 400;
      }
      var ok := repo.UpdatePrice(priceToInt, id);
      if !ok {
        return 400;
      }
      status := 204;
    }

    /** PATCH /books/{id} with `application/merge-patch+json`, `patch` being
        the parsed body or `None` when it does not parse. Checks in this
        order: unknown id 404, unparsable body 400, an `id` key 409 whatever
        else the patch holds, a field of the wrong type 400. Every field is
        decided before any is written, and the result goes through the
        repository update (its refusal gives 400). Nothing is written unless
        the answer is 204. */
    method MergePatchBook(id: Int64, patch: Option<Json>) returns (status: int)
      requires repo.Valid()
      modifies repo
      ensures repo.Valid() && repo.nextId == old(repo.nextId)
      ensures id !in old(repo.books) ==> status == 404
      ensures id in old(repo.books) && patch.None? ==> status == 400
      ensures id in old(repo.books) && patch.Some? && Has(patch.value, "id") ==> status == 409
      ensures status == 204 <==>
        && id in old(repo.books) && patch.Some? && !Has(patch.value, "id")
        && var r := PatchBook(old(repo.books)[id], patch.value);
           r.Some? && UpdateGuard(r.value.name, r.value.price, r.value.rating)
      ensures status == 204 ==>
        repo.books == old(repo.books)[id := PatchBook(old(repo.books)[id], patch.value).value]
      ensures status != 204 ==> repo.books == old(repo.books)
      ensures status in {204, 400, 404, 409}
    {
      var found := repo.FindOne(id);
      if found.None? {
        return 404;
      }
      var dto := found.value;
      if patch.None? {
        return 400;
      }
      var jsonNode := patch.value;
      if Has(jsonNode, "id") {
        return 409;
      }

      var patched := ApplyPatchFields(dto, jsonNode);
      if patched.None? {
        return 400;
      }
      var p := patched.value;
      var successful := repo.UpdateBook(p.name, p.description, p.genre, p.author,
                                        p.price, p.rating, dto.id.value);
      if !successful {
        return 400;
      }
      status := 204;
    }

    /** DELETE /books/{id}: 204 and the row removed, or 404 when there is
        no such row (the repository's exception). */
    method DeleteBookById(id: Int64) returns (status: int)
      requires repo.Valid()
      modifies repo
      ensures repo.Valid()
      ensures status == 204 <==> id in old(repo.books)
      ensures status == 204 || status == 404
      ensures repo.books == old(repo.books) - {id}
    {
      var ok := repo.Delete(id);
      status := if ok then 204 else 404;
    }
  }
}
