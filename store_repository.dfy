/** The listing table: Spring Data's derived queries, the custom create and
    update operations and the "last ten posted" query, over an in-memory map
    keyed by the generated id. */
module StoreRepo {
  import opened Common
  import opened StoreDomain

  /** The creation stamp a row is ordered by. Every stored row has one (see
      `StoreRepository.Valid`), so the default is never consulted. */
  function Stamp(b: BookForSale): int {
    if b.createdOn.Some? then b.createdOn.value else 0
  }

  /** Derived `findAllByName`. */
  function RowsNamed(rows: map<Int64, BookForSale>, name: string): set<BookForSale> {
    set b | b in rows.Values && b.name == name
  }

  /** Derived `findAllByPrice`. */
  function RowsPriced(rows: map<Int64, BookForSale>, price: Int32): set<BookForSale> {
    set b | b in rows.Values && b.price == price
  }

  /** Derived `findAllBySoldBy`. */
  function RowsSoldBy(rows: map<Int64, BookForSale>, soldBy: string): set<BookForSale> {
    set b | b in rows.Values && b.soldBy == soldBy
  }

  /** Inserting a row under a fresh key adds it to exactly the derived
      queries whose field it matches, and leaves every other answer as it
      was. */
  lemma {:induction false} InsertExtendsQueries(rows: map<Int64, BookForSale>, k: Int64, b: BookForSale,
                                               name: string, price: Int32, soldBy: string)
    requires k !in rows
    ensures RowsNamed(rows[k := b], name) == RowsNamed(rows, name) + (if b.name == name then {b} else {})
    ensures RowsPriced(rows[k := b], price) == RowsPriced(rows, price) + (if b.price == price then {b} else {})
    ensures RowsSoldBy(rows[k := b], soldBy) == RowsSoldBy(rows, soldBy) + (if b.soldBy == soldBy then {b} else {})
  {
    assert rows[k := b].Values == rows.Values + {b} by {
      forall v | v in rows[k := b].Values ensures v in rows.Values + {b} {
        var j :| j in rows[k := b] && rows[k := b][j] == v;
        if j != k {
          assert rows[j] == v;
        }
      }
      forall v | v in rows.Values ensures v in rows[k := b].Values {
        var j :| j in rows && rows[j] == v;
        assert rows[k := b][j] == v;
      }
      assert rows[k := b][k] == b;
    }
  }

  /** The state of the newest-first selection: `r` holds the rows of the
      distinct keys `ks`, newest first; `rest` holds every key not taken,
      none of whose rows is newer than one taken. */
  ghost predicate Picked(rows: map<Int64, BookForSale>, r: seq<BookForSale>, ks: seq<Int64>, rest: set<Int64>) {
    && rest <= rows.Keys && |ks| == |r|
    && (forall i | 0 <= i < |r| :: ks[i] in rows && ks[i] !in rest && r[i] == rows[ks[i]])
    && (forall k | k in rows && k !in rest :: k in ks)
    && (forall i, j | 0 <= i < j < |r| :: ks[i] != ks[j])
    && (forall i, j | 0 <= i < j < |r| :: Stamp(r[i]) >= Stamp(r[j]))
    && (forall k | k in rest :: forall i | 0 <= i < |r| :: Stamp(rows[k]) <= Stamp(r[i]))
  }

  /** Taking the newest remaining row keeps the selection newest first. */
  lemma PickNewest(rows: map<Int64, BookForSale>, r: seq<BookForSale>, ks: seq<Int64>, rest: set<Int64>, k: Int64)
    requires Picked(rows, r, ks, rest)
    requires k in rest && forall j | j in rest :: Stamp(rows[j]) <= Stamp(rows[k])
    ensures Picked(rows, r + [rows[k]], ks + [k], rest - {k})
  {
    var r', ks', rest' := r + [rows[k]], ks + [k], rest - {k};
    forall j | j in rows && j !in rest' ensures j in ks' {
      if j != k {
        assert j in ks;
      }
    }
  }

  /** When every row carries its key as id, the selection's rows are
      distinct, and no row left out is newer than one taken. */
  lemma PickedAnswer(rows: map<Int64, BookForSale>, r: seq<BookForSale>, ks: seq<Int64>, rest: set<Int64>)
    requires Picked(rows, r, ks, rest)
    requires forall k | k in rows :: rows[k].id == Some(k)
    ensures forall i | 0 <= i < |r| :: r[i] in rows.Values
    ensures forall i, j | 0 <= i < j < |r| :: r[i] != r[j]
    ensures forall b | b in rows.Values && b !in r :: forall i | 0 <= i < |r| :: Stamp(b) <= Stamp(r[i])
  {
    forall i, j | 0 <= i < j < |r| ensures r[i] != r[j] {
      assert r[i].id == Some(ks[i]) && r[j].id == Some(ks[j]);
    }
    forall b | b in rows.Values && b !in r ensures forall i | 0 <= i < |r| :: Stamp(b) <= Stamp(r[i]) {
      var k :| k in rows && rows[k] == b;
      assert forall i | 0 <= i < |ks| :: ks[i] != k;
    }
  }

  class StoreRepository {
    /** The rows, keyed by id. */
    var rows: map<Int64, BookForSale>
    /** The next value of the id sequence. */
    var nextId: int

    /** Every row carries its own key as id and a creation stamp, and every
        key was handed out by the sequence. */
    ghost predicate Valid()
      reads this
    {
      && 1 <= nextId
      && forall k | k in rows :: rows[k].id == Some(k) && rows[k].createdOn.Some? && 1 <= k < nextId
    }

    constructor ()
      ensures Valid() && rows == map[] && nextId == 1
    {
      rows := map[];
      nextId := 1;
    }

    /** `CrudRepository.exists`. */
    function Exists(id: Int64): bool
      reads this
    {
      id in rows
    }

    /** `CrudRepository.findOne`. */
    function FindOne(id: Int64): (r: Option<BookForSale>)
      reads this
      ensures r.Some? <==> id in rows
      ensures r.Some? ==> r.value == rows[id]
    {
      if id in rows then Some(rows[id]) else None
    }

    /** `CrudRepository.findAll`, as the set of rows. */
    function FindAll(): set<BookForSale>
      reads this
    {
      rows.Values
    }

    function FindAllByName(name: string): set<BookForSale>
      reads this
    {
      RowsNamed(rows, name)
    }

    function FindAllByPrice(price: Int32): set<BookForSale>
      reads this
    {
      RowsPriced(rows, price)
    }

    function FindAllBySoldBy(soldBy: string): set<BookForSale>
      reads this
    {
      RowsSoldBy(rows, soldBy)
    }

    /** `createBookForSale`: persist a new listing stamped with the clock
        reading `now` and return the id the sequence gave it. Bean
        validation or the sequence can make `persist` throw; then nothing is
        stored. Each successful call adds exactly one row. (The source's
        `-1` answer for an entity left without an id never arises here.) */
    method CreateBookForSale(name: string, soldBy: string, price: Int32, now: int)
      returns (r: PersistOutcome<Int64>)
      requires Valid()
      modifies this
      ensures Valid()
      ensures var e := BookForSale(name, soldBy, price, None, Some(now));
        && (r.ConstraintViolation? <==> !ValidBookForSale(e))
        && (r.Stored? <==> ValidBookForSale(e) && old(nextId) <= MaxInt64)
        && (r.Stored? ==>
              && r.value != -1 && r.value !in old(rows)
              && rows == old(rows)[r.value := e.(id := Some(r.value))]
              && |rows| == |old(rows)| + 1)
        && (!r.Stored? ==> rows == old(rows))
    {
      var entity := BookForSale(name, soldBy, price, None, Some(now));
      if !ValidBookForSale(entity) {
        return ConstraintViolation;
      }
      if nextId > MaxInt64 {
        return PersistFailure;
      }
      var id: Int64 := nextId;
      rows := rows[id := entity.(id := Some(id))];
      nextId := nextId + 1;
      r := Stored(id);
    }

    /** `update`: an unknown id, a blank name, a blank seller or a price
        below 1 answer false and write nothing; otherwise exactly name,
        seller and price are overwritten. */
    method Update(name: string, soldBy: string, price: Int32, id: Int64) returns (ok: bool)
      requires Valid()
      modifies this
      ensures Valid() && nextId == old(nextId)
      ensures ok <==> id in old(rows) && !IsBlank(name) && !IsBlank(soldBy) && price >= 1
      ensures ok ==> rows == old(rows)[id := old(rows)[id].(name := name, soldBy := soldBy, price := price)]
      ensures !ok ==> rows == old(rows)
    {
      if id !in rows {
        return false;
      }
      if IsBlank(name) || IsBlank(soldBy) || price < 1 {
        return false;
      }
      rows := rows[id := rows[id].(name := name, soldBy := soldBy, price := price)];
      ok := true;
    }

    /** `CrudRepository.delete`: removes the row, or throws (false) when
        there is none. */
    method Delete(id: Int64) returns (ok: bool)
      requires Valid()
      modifies this
      ensures Valid() && nextId == old(nextId)
      ensures ok <==> id in old(rows)
      ensures rows == old(rows) - {id}
    {
      ok := id in rows;
      rows := rows - {id};
    }

    /** One of `keys` whose row is at least as new as every other. */
    method Newest(keys: set<Int64>) returns (k: Int64)
      requires keys != {} && keys <= rows.Keys
      ensures k in keys
      ensures forall j | j in keys :: Stamp(rows[j]) <= Stamp(rows[k])
    {
      var rest := keys;
      k :| k in rest;
      rest := rest - {k};
      while rest != {}
        invariant rest <= keys && k in keys
        invariant forall j | j in keys && j !in rest :: Stamp(rows[j]) <= Stamp(rows[k])
        decreases |rest|
      {
        var j :| j in rest;
        if Stamp(rows[j]) > Stamp(rows[k]) {
          k := j;
        }
        rest := rest - {j};
      }
    }

    /** `getLast10PostedBooksForSale`: the query ordered by `createdOn`
        newest first, cut to at most ten results. The loop stands for the
        database's sort and limit; it picks the newest remaining row each
        time, so rows with equal stamps come out in an unspecified order.
        The answer: ten rows, or all of them when there are fewer; each a
        stored row, none twice; newest first; and no row left out is newer
        than one returned. Nothing changes. */
    method GetLast10PostedBooksForSale() returns (r: seq<BookForSale>)
      requires Valid()
      ensures |r| == if |rows| < 10 then |rows| else 10
      ensures forall i | 0 <= i < |r| :: r[i] in rows.Values
      ensures forall i, j | 0 <= i < j < |r| :: r[i] != r[j]
      ensures forall i, j | 0 <= i < j < |r| :: Stamp(r[i]) >= Stamp(r[j])
      ensures forall b | b in rows.Values && b !in r :: forall i | 0 <= i < |r| :: Stamp(b) <= Stamp(r[i])
    {
      r := [];
      var rest := rows.Keys;
      ghost var ks: seq<Int64> := [];
      while |r| < 10 && rest != {}
        invariant Picked(rows, r, ks, rest)
        invariant |r| <= 10 && |rest| == |rows| - |r|
        decreases |rest|
      {
        var k := Newest(rest);
        PickNewest(rows, r, ks, rest, k);
        r := r + [rows[k]];
        ks := ks + [k];
        rest := rest - {k};
      }
      PickedAnswer(rows, r, ks, rest);
    }
  }
}
