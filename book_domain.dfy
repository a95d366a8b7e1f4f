/** The book entity with the constraints its annotations declare, and the
    entity-to-record converter. */
module BookDomain {
  import opened Common
  import opened Schema

  /** A stored book; `id` is null until the store generates it. */
  datatype Book = Book(
    name: string,
    description: Option<string>,
    genre: Option<string>,
    author: Option<string>,
    price: Option<Int32>,
    rating: Option<Int32>,
    id: Option<Int64>)

  /** `@Size(min, max)` on a nullable string: null passes. */
  predicate SizeIn(s: Option<string>, min: nat, max: nat) {
    s.None? || min <= |s.value| <= max
  }

  /** The bean-validation constraints on a book: `@NotBlank` and
      `@Size(1, 50)` on the name, and so on (uniqueness of the name is a
      property of the table, see BookRepo). */
  predicate ValidBook(b: Book) {
    && !TrimsToEmpty(b.name) && 1 <= |b.name| <= 50
    && SizeIn(b.description, 1, 250)
    && SizeIn(b.genre, 1, 50)
    && SizeIn(b.author, 0, 50)
    && (b.price.None? || b.price.value >= 0)
    && (b.rating.None? || 0 <= b.rating.value <= 5)
  }

  /** The converter: fields copied, the id rendered with `toString()` on a
      nullable `Long`, so a missing id becomes the text "null". */
  function Transform(b: Book): (d: BookDto)
    ensures d.name == Some(b.name) && d.description == b.description
    ensures d.genre == b.genre && d.author == b.author
    ensures d.price == b.price && d.rating == b.rating
    ensures b.id.Some? ==> d.id == Some(LongToString(b.id.value))
    ensures b.id.None? ==> d.id == Some("null")
  {
    BookDto(
      Some(b.name), b.description, b.genre, b.author, b.price, b.rating,
      Some(if b.id.Some? then LongToString(b.id.value) else "null"))
  }

  /** The list converter. */
  function TransformAll(bs: seq<Book>): (ds: seq<BookDto>)
    ensures |ds| == |bs|
    ensures forall i | 0 <= i < |bs| :: ds[i] == Transform(bs[i])
  {
    MapSeq(Transform, bs)
  }

  /** The record's text id reads back as the entity's id, which is what a
      client sends back in the body of a PUT. */
  lemma TransformIdRoundTrip(b: Book)
    requires b.id.Some?
    ensures ParseLong(Transform(b).id.value) == b.id
  {
    ParseLongRoundTrip(b.id.value);
  }

  /** A book without an id is rendered with the text "null" as its id, which
      does not parse as a number. */
  lemma TransformNullId(b: Book)
    requires b.id.None?
    ensures Transform(b).id == Some("null")
    ensures ParseLong(Transform(b).id.value).None?
  {
    assert !IsDigit('n');
  }
}
