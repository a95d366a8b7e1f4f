/** The book table: Spring Data's derived queries and the custom
    create/update operations, over an in-memory map keyed by the generated
    id. */
module BookRepo {
  import opened Common
  import opened BookDomain

  /** A book with this exact name is stored. */
  predicate NameTaken(books: map<Int64, Book>, name: string) {
    exists k | k in books :: books[k].name == name
  }

  /** No two stored books share a name (the unique column). */
  predicate UniqueNames(books: map<Int64, Book>) {
    forall j, k | j in books && k in books && j != k :: books[j].name != books[k].name
  }

  /** What `updateBook` checks before it writes: a non-empty name, and a
      price and a rating that are null or at least 1. */
  predicate UpdateGuard(name: string, price: Option<Int32>, rating: Option<Int32>) {
    && |name| > 0
    && (price.None? || price.value >= 1)
    && (rating.None? || rating.value >= 1)
  }

  class BookRepository {
    /** The rows, keyed by id. */
    var books: map<Int64, Book>
    /** The next value of the id sequence. */
    var nextId: int

    /** Every row carries its own key as id, and every key was handed out
        by the sequence. */
    ghost predicate Valid()
      reads this
    {
      && 1 <= nextId
      && forall k | k in books :: books[k].id == Some(k) && 1 <= k < nextId
    }

    constructor ()
      ensures Valid() && books == map[] && nextId == 1
    {
      books := map[];
      nextId := 1;
    }

    /** `CrudRepository.exists`. */
    function Exists(id: Int64): bool
      reads this
    {
      id in books
    }

    /** `CrudRepository.findOne`. */
    function FindOne(id: Int64): (r: Option<Book>)
      reads this
      ensures r.Some? <==> id in books
      ensures r.Some? ==> r.value == books[id]
    {
      if id in books then Some(books[id]) else None
    }

    /** `CrudRepository.findAll`, as the set of rows. */
    function FindAll(): set<Book>
      reads this
    {
      books.Values
    }

    /** Derived `findAllByName`: the rows whose name is exactly `name`. */
    function FindAllByName(name: string): set<Book>
      reads this
    {
      set b | b in books.Values && b.name == name
    }

    /** Derived `existsByName`. */
    predicate ExistsByName(name: string)
      reads this
    {
      NameTaken(books, name)
    }

    /** The two derived queries agree: a name exists exactly when looking
        it up finds a row, and every row found has that name. */
    lemma ExistsByNameIffFound(name: string)
      ensures ExistsByName(name) <==> FindAllByName(name) != {}
      ensures forall b | b in FindAllByName(name) :: b.name == name && b in FindAll()
    {
      if ExistsByName(name) {
        var k :| k in books && books[k].name == name;
        assert books[k] in FindAllByName(name);
      }
    }

    /** `createBook`: persist a new entity and return the id the sequence
        gave it. Bean validation, the unique name and the sequence can each
        make `persist` throw; then nothing is stored. (The source's `-1`
        answer for an entity left without an id never arises here: a stored
        entity always has one.) */
    method CreateBook(name: string, description: Option<string>, genre: Option<string>,
                      author: Option<string>, price: Option<Int32>, rating: Option<Int32>)
      returns (r: PersistOutcome<Int64>)
      requires Valid()
      modifies this
      ensures Valid()
      ensures var e := Book(name, description, genre, author, price, rating, None);
        && (r.ConstraintViolation? <==> !ValidBook(e))
        && (r.Stored? <==> ValidBook(e) && !NameTaken(old(books), name) && old(nextId) <= MaxInt64)
        && (r.Stored? ==>
              && r.value != -1 && r.value !in old(books)
              && books == old(books)[r.value := e.(id := Some(r.value))])
        && (!r.Stored? ==> books == old(books))
      ensures UniqueNames(old(books)) ==> UniqueNames(books)
    {
      var entity := Book(name, description, genre, author, price, rating, None);
      if !ValidBook(entity) {
        return ConstraintViolation;
      }
      if ExistsByName(name) || nextId > MaxInt64 {
        return PersistFailure;
      }
      var id: Int64 := nextId;
      books := books[id := entity.(id := Some(id))];
      nextId := nextId + 1;
      r := Stored(id);
    }

    /** `updateBook`: an unknown id, an empty name, or a price or rating
        below 1 answer false and write nothing; otherwise all six fields are
        overwritten, nulls included, and the id stays. */
    method UpdateBook(name: string, description: Option<string>, genre: Option<string>,
                      author: Option<string>, price: Option<Int32>, rating: Option<Int32>,
                      id: Int64)
      returns (ok: bool)
      requires Valid()
      modifies this
      ensures Valid() && nextId == old(nextId)
      ensures ok <==> id in old(books) && UpdateGuard(name, price, rating)
      ensures ok ==> books == old(books)[id := Book(name, description, genre, author, price, rating, Some(id))]
      ensures !ok ==> books == old(books)
    {
      if id !in books {
        return false;
      }
      if |name| == 0 {
        return false;
      }
      if price.Some? && price.value < 1 {
        return false;
      }
      if rating.Some? && rating.value < 1 {
        return false;
      }
      books := books[id := Book(name, description, genre, author, price, rating, Some(id))];
      ok := true;
    }

    /** `updatePrice`: an unknown id or a price outside 0..1000 answer false;
        otherwise only the price changes. */
    method UpdatePrice(price: Int32, id: Int64) returns (ok: bool)
      requires Valid()
      modifies this
      ensures Valid() && nextId == old(nextId)
      ensures ok <==> id in old(books) && 0 <= price <= 1000
      ensures ok ==> books == old(books)[id := old(books)[id].(price := Some(price))]
      ensures !ok ==> books == old(books)
    {
      if id !in books {
        return false;
      }
      if price < 0 || price > 1000 {
        return false;
      }
      books := books[id := books[id].(price := Some(price))];
      ok := true;
    }

    /** `CrudRepository.delete`: removes the row, or throws (false) when
        there is none. */
    method Delete(id: Int64) returns (ok: bool)
      requires Valid()
      modifies this
      ensures Valid() && nextId == old(nextId)
      ensures ok <==> id in old(books)
      ensures books == old(books) - {id}
    {
      ok := id in books;
      books := books - {id};
    }
  }
}
