/** The store's listing entity with the constraints its annotations
    declare, and the entity-to-record converter. */
module StoreDomain {
  import opened Common
  import opened Schema

  /** A book offered for sale; `id` is null until the store generates it,
      `createdOn` is the clock reading at creation. */
  datatype BookForSale = BookForSale(
    name: string,
    soldBy: string,
    price: Int32,
    id: Option<Int64>,
    createdOn: Option<int>)

  /** The bean-validation constraints: name and seller each `@NotBlank` and
      at most 32 characters. The price is a non-null `Int`, which the type
      already says; nothing bounds its value. */
  predicate ValidBookForSale(b: BookForSale) {
    && !TrimsToEmpty(b.name) && |b.name| <= 32
    && !TrimsToEmpty(b.soldBy) && |b.soldBy| <= 32
  }

  /** The converter: `id?.toString()`, so a missing id stays missing (the
      book converter writes "null" instead). */
  function Transform(b: BookForSale): (d: BookForSaleDto)
    ensures d.name == Some(b.name) && d.soldBy == Some(b.soldBy) && d.price == Some(b.price)
    ensures d.createdOn == b.createdOn
    ensures d.id.None? <==> b.id.None?
  {
    BookForSaleDto(
      Some(b.name), Some(b.soldBy), Some(b.price),
      if b.id.Some? then Some(LongToString(b.id.value)) else None,
      b.createdOn)
  }

  /** The converter loses nothing: the record's text id parses back to the
      entity's id, so the entity can be read back from the record. */
  lemma TransformRoundTrip(b: BookForSale)
    ensures var d := Transform(b);
      && (d.id.Some? ==> ParseLong(d.id.value) == b.id)
      && b == BookForSale(d.name.value, d.soldBy.value, d.price.value,
                          if d.id.Some? then ParseLong(d.id.value) else None, d.createdOn)
  {
    if b.id.Some? {
      ParseLongRoundTrip(b.id.value);
    }
  }

  /** The list converter. */
  function TransformAll(bs: seq<BookForSale>): (ds: seq<BookForSaleDto>)
    ensures |ds| == |bs|
    ensures forall i | 0 <= i < |bs| :: ds[i] == Transform(bs[i])
  {
    MapSeq(Transform, bs)
  }
}
