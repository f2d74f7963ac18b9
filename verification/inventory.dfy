/** The inventory ledger row (`Inventory` entity) and the invariants the
    store keeps over the whole ledger. */
module Inventory {
  import opened Common

  /** The unique-index key of a ledger row: hotel, room type and calendar day. */
  datatype DayKey = DayKey(hotelId: int, roomTypeId: int, day: int)

  /** One ledger row. `day` is a whole day number (time of day already
      stripped); `total` and `reserved` are `CantidadTotal` and
      `CantidadReservada`. Availability is derived, never stored. */
  datatype Row = Row(id: int, hotelId: int, roomTypeId: int, day: int, total: int, reserved: int)
  {
    function Key(): DayKey {
      DayKey(hotelId, roomTypeId, day)
    }

    /** `CantidadDisponible`: the rooms still free on this day, as the
        repository computes it in (unchecked) `int` arithmetic. */
    function Available(): (r: int)
      ensures IsInt32(r)
      ensures IsInt32(total - reserved) ==> r == total - reserved
    {
      Wrap32(total - reserved)
    }

    /** The invariant every stored row should satisfy: both counts are
        `int` columns and no more rooms are reserved than exist. */
    predicate Consistent() {
      0 <= reserved <= total <= Int32Max
    }

    /** The per-row test of the availability check: enough free rooms for
        `rooms`. On a consistent row this is the same as saying the
        reservation still fits. */
    predicate HasRoomFor(rooms: int)
      ensures Consistent() ==> (HasRoomFor(rooms) <==> reserved + rooms <= total)
    {
      Available() >= rooms
    }

    /** The row after `rooms` more rooms are reserved on it (`+=` on an `int`). */
    function Reserve(rooms: int): (r: Row)
      ensures r.total == total && r.id == id && r.Key() == Key()
      ensures IsInt32(r.reserved)
      ensures IsInt32(reserved + rooms) ==> r.reserved == reserved + rooms
      ensures Consistent() && IsInt32(rooms) && HasRoomFor(rooms) ==>
        r.reserved == reserved + rooms && r.reserved <= r.total
    {
      this.(reserved := Wrap32(reserved + rooms))
    }
  }

  /** On a consistent row that passed the test for an `int` count,
      reserving takes exactly that many rooms off the free count, unless a
      negative count lifts it past the largest `int`. A non-negative count
      always does, and leaves the free count non-negative. */
  lemma ReserveTakesFromAvailable(row: Row, rooms: int)
    requires row.Consistent() && IsInt32(rooms) && row.HasRoomFor(rooms)
    ensures IsInt32(row.Available() - rooms) ==> row.Reserve(rooms).Available() == row.Available() - rooms
    ensures rooms >= 0 ==> row.Reserve(rooms).Available() == row.Available() - rooms >= 0
  {
    var after := row.Reserve(rooms);
    assert after.reserved == row.reserved + rooms;
    assert after.total - after.reserved == row.Available() - rooms;
  }

  /** A negative count can wrap the free count: a full `int` total with
      nothing reserved, and one room handed back, shows the least `int`. */
  lemma NegativeReserveWrapsAvailable()
    ensures var row := Row(1, 1, 1, 10, Int32Max, 0);
      row.HasRoomFor(-1) && row.Reserve(-1).Available() == -Int32Max - 1
  {
  }

  type Ledger = seq<Row>

  /** At most one row per (hotel, room type, day). */
  ghost predicate UniqueKeys(ledger: Ledger) {
    forall i, j :: 0 <= i < j < |ledger| ==> ledger[i].Key() != ledger[j].Key()
  }

  /** Row ids are primary keys. */
  ghost predicate UniqueIds(ledger: Ledger) {
    forall i, j :: 0 <= i < j < |ledger| ==> ledger[i].id != ledger[j].id
  }

  /** `Consistent` on every row. */
  ghost predicate AllConsistent(ledger: Ledger) {
    forall i :: 0 <= i < |ledger| ==> ledger[i].Consistent()
  }

  ghost predicate Valid(ledger: Ledger) {
    UniqueKeys(ledger) && UniqueIds(ledger) && AllConsistent(ledger)
  }

  /** The id the store hands to the next inserted row. */
  function NextId(ledger: Ledger): (r: int)
    ensures forall i :: 0 <= i < |ledger| ==> ledger[i].id < r
    ensures r >= 1
  {
    FreshId(ledger, (row: Row) => row.id)
  }

  /** Appending a row whose key and id are new keeps the ledger valid. */
  lemma AppendKeepsValid(ledger: Ledger, row: Row)
    requires Valid(ledger) && row.Consistent()
    requires forall i :: 0 <= i < |ledger| ==> ledger[i].Key() != row.Key() && ledger[i].id != row.id
    ensures Valid(ledger + [row])
  {
  }
}
