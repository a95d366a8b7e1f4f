/** The store service's REST and message handlers: the check on incoming
    listings, the merge-patch semantics of a listing as a pure function, and
    the controller. */
module StoreApi {
  import opened Common
  import opened Json
  import opened Schema
  import opened StoreDomain
  import opened StoreRepo

  /** `validDto`: name, seller and price present, and no id. */
  predicate ValidDto(dto: BookForSaleDto) {
    dto.name.Some? && dto.soldBy.Some? && dto.price.Some? && dto.id.None?
  }

  /** The entity `registerBookForSale` creates from a record, stamped with
      the clock reading `now`. */
  function NewListing(dto: BookForSaleDto, now: int): BookForSale
    requires dto.name.Some? && dto.soldBy.Some? && dto.price.Some?
  {
    BookForSale(dto.name.value, dto.soldBy.value, dto.price.value, None, Some(now))
  }

  // ---------------------------------------------------------------------
  // Merge patch
  // ---------------------------------------------------------------------

  /** The listing a merge patch produces, before the repository's checks,
      or `None` when a field has a value of the wrong type. Name and seller
      are mandatory: null keeps them. The price accepts only a number
      (narrowed by `asInt()`): the handler's `priceNode == null` test asks
      whether `get` found nothing, which cannot happen once `has` said yes,
      so an explicit JSON null falls through to the type check and is
      rejected. */
  function PatchListing(b: BookForSale, patch: Json): (r: Option<BookForSale>)
    ensures r.Some? ==> r.value.id == b.id && r.value.createdOn == b.createdOn
    ensures !patch.JObject? ==> r == Some(b)
  {
    var name := MandatoryText(patch, "name");
    var soldBy := MandatoryText(patch, "soldBy");
    var price := RequiredNumber(patch, "price");
    if name.Invalid? || soldBy.Invalid? || price.Invalid? then None
    else Some(b.(name := Resolve(name, b.name), soldBy := Resolve(soldBy, b.soldBy),
                 price := Resolve(price, b.price)))
  }

  /** A patch is rejected exactly when name or seller is neither text nor
      null, or the price is present and not a number; in particular an
      explicit null price rejects the patch, whatever else it holds. */
  lemma PatchListingRejects(b: BookForSale, patch: Json)
    ensures PatchListing(b, patch).None? <==>
      || (Has(patch, "name") && !TextOrNull(Get(patch, "name")))
      || (Has(patch, "soldBy") && !TextOrNull(Get(patch, "soldBy")))
      || (Has(patch, "price") && !Get(patch, "price").JNum?)
    ensures Has(patch, "price") && Get(patch, "price").JNull? ==> PatchListing(b, patch).None?
  {
  }

  /** The value each field ends up with after an accepted patch: absent or
      null keeps name and seller, text replaces them; an absent price
      keeps it, a number replaces it by its low 32 bits. */
  lemma PatchListingPolicy(b: BookForSale, patch: Json)
    requires PatchListing(b, patch).Some?
    ensures var r := PatchListing(b, patch).value;
      && r.name == (if Has(patch, "name") && Get(patch, "name").JText? then Get(patch, "name").text else b.name)
      && r.soldBy == (if Has(patch, "soldBy") && Get(patch, "soldBy").JText? then Get(patch, "soldBy").text else b.soldBy)
      && r.price == (if Has(patch, "price") then IntValue(Get(patch, "price").num) else b.price)
      && r.id == b.id && r.createdOn == b.createdOn
  {
  }

  /** Applying an accepted patch a second time changes nothing more. */
  lemma {:induction false} PatchListingIdempotent(b: BookForSale, patch: Json)
    requires PatchListing(b, patch).Some?
    ensures PatchListing(PatchListing(b, patch).value, patch) == PatchListing(b, patch)
  {
    var r := PatchListing(b, patch).value;
    PatchListingRejects(b, patch);
    PatchListingRejects(r, patch);
    PatchListingPolicy(b, patch);
    PatchListingPolicy(r, patch);
  }

  /** The field-by-field decisions of the merge-patch handler, made on
      mutable locals in the handler's order; a value of the wrong type ends
      the patch. */
  method ApplyListingPatch(dto: BookForSale, jsonNode: Json) returns (patched: Option<BookForSale>)
    ensures patched == PatchListing(dto, jsonNode)
  {
    var ok: bool;
    var newName, newSoldBy, newPrice;
    // Name and seller keep their old value on null.
    ok, newName := ReadMandatoryText(jsonNode, "name", dto.name);
    if !ok { return None; }
    ok, newSoldBy := ReadMandatoryText(jsonNode, "soldBy", dto.soldBy);
    if !ok { return None; }
    ok, newPrice := ReadRequiredNumber(jsonNode, "price", dto.price);
    if !ok { return None; }
    patched := Some(dto.(name := newName, soldBy := newSoldBy, price := newPrice));
  }

  // ---------------------------------------------------------------------
  // The controller
  // ---------------------------------------------------------------------

  class StoreController {
    const repo: StoreRepository

    constructor (repo: StoreRepository)
      ensures this.repo == repo
    {
      this.repo := repo;
    }

    /** `registerBookForSale`: the record's name, seller and price, each
        dereferenced with `!!`, are handed to the repository at clock
        reading `now`. */
    method RegisterBookForSale(dto: BookForSaleDto, now: int) returns (r: PersistOutcome<Int64>)
      requires dto.name.Some? && dto.soldBy.Some? && dto.price.Some?
      requires repo.Valid()
      modifies repo
      ensures repo.Valid()
      ensures var e := NewListing(dto, now);
        && (r.ConstraintViolation? <==> !ValidBookForSale(e))
        && (r.Stored? <==> ValidBookForSale(e) && old(repo.nextId) <= MaxInt64)
        && (r.Stored? ==> r.value !in old(repo.rows) && repo.rows == old(repo.rows)[r.value := e.(id := Some(r.value))])
        && (!r.Stored? ==> repo.rows == old(repo.rows))
    {
      r := repo.CreateBookForSale(dto.name.value, dto.soldBy.value, dto.price.value, now);
    }

    /** The listener on the store queue: the same path as POST but without
        `validDto`. A missing name, seller or price throws at the `!!`, and
        a refused entity throws in the repository; either way the message
        leaves the table unchanged. An id in the message is ignored. */
    method CreateBookForSaleRabbit(dto: BookForSaleDto, now: int)
      requires repo.Valid()
      modifies repo
      ensures repo.Valid()
      ensures if dto.name.Some? && dto.soldBy.Some? && dto.price.Some?
                 && ValidBookForSale(NewListing(dto, now)) && old(repo.nextId) <= MaxInt64
        then exists id: Int64 | id !in old(repo.rows) ::
          repo.rows == old(repo.rows)[id := NewListing(dto, now).(id := Some(id))]
        else repo.rows == old(repo.rows)
    {
      if dto.name.None? || dto.soldBy.None? || dto.price.None? {
        return;
      }
      var _ := RegisterBookForSale(dto, now);
    }

    /** POST /store: a record failing `validDto` gives 400; a listing that
        breaks the entity's constraints gives 409 (the
        `ConstraintViolationException`); any other persistence failure
        400; otherwise 201 and the new id, under which the listing is
        stored with the stamp `now`. */
    method CreateBookForSale(dto: BookForSaleDto, now: int) returns (status: int, id: Option<Int64>)
      requires repo.Valid()
      modifies repo
      ensures repo.Valid()
      ensures status in {201, 400, 409}
      ensures !ValidDto(dto) ==> status == 400
      ensures ValidDto(dto) ==>
        var e := NewListing(dto, now);
        && (status == 409 <==> !ValidBookForSale(e))
        && (status == 201 <==> ValidBookForSale(e) && old(repo.nextId) <= MaxInt64)
        && (status == 201 ==>
              && id.Some? && id.value !in old(repo.rows)
              && repo.rows == old(repo.rows)[id.value := e.(id := id)])
      ensures status != 201 ==> id.None? && repo.rows == old(repo.rows)
    {
      if !ValidDto(dto) {
        return 400, None;
      }
      var r := RegisterBookForSale(dto, now);
      match r
      case Stored(newId) => return 201, Some(newId);
      case ConstraintViolation => return 409, None;
      case PersistFailure => return 400, None;
    }

    /** GET /store[?name=]: a missing or blank name lists every listing,
        any other name the listings with exactly that name. */
    method GetBooksForSale(name: Option<string>) returns (status: int, body: seq<BookForSaleDto>)
      requires repo.Valid()
      ensures status == 200
      ensures var rows := if IsNullOrBlank(name) then repo.FindAll() else repo.FindAllByName(name.value);
        && |body| == |rows|
        && (forall b | b in rows :: Transform(b) in body)
        && (forall i | 0 <= i < |body| :: exists b | b in rows :: body[i] == Transform(b))
    {
      var rows := if IsNullOrBlank(name) then repo.FindAll() else repo.FindAllByName(name.value);
      var list := Enumerate(rows);
      body := TransformAll(list);
      status := 200;
    }

    /** GET /store/{id}: 404 for an unknown id, otherwise 200 with the
        converted listing. */
    method GetBookForSaleById(pathId: Int64) returns (status: int, body: Option<BookForSaleDto>)
      ensures status == 200 <==> pathId in repo.rows
      ensures status == 200 || status == 404
      ensures status == 404 ==> body.None?
      ensures status == 200 ==> body == Some(Transform(repo.rows[pathId]))
    {
      var dto := repo.FindOne(pathId);
      if dto.None? {
        return 404, None;
      }
      status, body := 200, Some(Transform(dto.value));
    }

    /** DELETE /store/{id}: 404 for an unknown id with nothing changed,
        otherwise 204 and exactly that listing removed. */
    method DeleteBookForSale(pathId: Int64) returns (status: int)
      requires repo.Valid()
      modifies repo
      ensures repo.Valid()
      ensures status == 204 || status == 404
      ensures status == 204 <==> pathId in old(repo.rows)
      ensures repo.rows == old(repo.rows) - {pathId}
    {
      if !repo.Exists(pathId) {
        return 404;
      }
      var _ := repo.Delete(pathId);
      status := 204;
    }

    /** PATCH /store/{id} with `application/merge-patch+json`, `patch` being
        the parsed body or `None`. Checks in this order: a path that is not a
        `Long` 400, unknown id 404, unparsable body 400, an `id` key 409, a
        field of the wrong type 400, the repository's refusal 400; otherwise
        204. Nothing is written unless the answer is 204. */
    method MergePatchBookForSale(id: string, patch: Option<Json>) returns (status: int)
      requires repo.Valid()
      modifies repo
      ensures repo.Valid() && repo.nextId == old(repo.nextId)
      ensures status in {204, 400, 404, 409}
      ensures ParseLong(id).None? ==> status == 400
      ensures ParseLong(id).Some? && ParseLong(id).value !in old(repo.rows) ==> status == 404
      ensures ParseLong(id).Some? && ParseLong(id).value in old(repo.rows) && patch.None? ==> status == 400
      ensures ParseLong(id).Some? && ParseLong(id).value in old(repo.rows) && patch.Some? && Has(patch.value, "id")
        ==> status == 409
      ensures status == 204 <==>
        && ParseLong(id).Some? && ParseLong(id).value in old(repo.rows)
        && patch.Some? && !Has(patch.value, "id")
        && var r := PatchListing(old(repo.rows)[ParseLong(id).value], patch.value);
           r.Some? && !IsBlank(r.value.name) && !IsBlank(r.value.soldBy) && r.value.price >= 1
      ensures status == 204 ==>
        repo.rows == old(repo.rows)[ParseLong(id).value := PatchListing(old(repo.rows)[ParseLong(id).value], patch.value).value]
      ensures status != 204 ==> repo.rows == old(repo.rows)
    {
      var parsed := ParseLong(id);
      if parsed.None? {
        return 400;
      }
      var pathId := parsed.value;
      var found := repo.FindOne(pathId);
      if found.None? {
        return 404;
      }
      var dto := found.value;
      if patch.None? {
        return 400;
      }
      var jsonNode := patch.value;
      if Has(jsonNode, "id") {
        return 409;
      }

      var patched := ApplyListingPatch(dto, jsonNode);
      if patched.None? {
        return 400;
      }
      var p := patched.value;
      var successful := repo.Update(p.name, p.soldBy, p.price, dto.id.value);
      if !successful {
        return 400;
      }
      status := 204;
    }
  }
}
