/** `InventoryService`: request guards around the availability check and the
    three provisioning operations (single day, manual update, bulk range). */
module InventoryService {
  import opened Common
  import opened Calendar
  import opened Entities
  import opened Inventory
  import opened InventoryRepository

  const DateOrderMessage := "La fecha de inicio debe ser anterior a la fecha de fin"
  const RoomCountMessage := "La cantidad de habitaciones debe ser mayor a 0"
  const AvailableMessage := "Hay disponibilidad para las fechas seleccionadas"
  const UnavailableMessage := "No hay disponibilidad suficiente para las fechas seleccionadas"
  const DuplicateDayMessage := "Ya existe inventario para esta fecha"
  const ReservedOverTotalMessage := "La cantidad reservada no puede ser mayor a la cantidad total"
  const TotalNotPositiveMessage := "La cantidad total debe ser mayor a 0"
  const NoNightMessage := "El rango de fechas debe contener al menos una noche"
  /** What the controller answers, with status 500, when the save itself
      throws rather than the service. */
  const ServerErrorMessage := "Error interno del servidor"

  /** `CheckAvailabilityDto`; the two dates keep their time of day. */
  datatype AvailabilityRequest = AvailabilityRequest(hotelId: int, roomTypeId: int, start: Moment, end: Moment, rooms: int)
  {
    /** The first and last calendar day the repository sees. */
    function FirstDay(): nat { DayOf(start) }
    function LastDay(): nat { DayOf(end) }
  }

  /** `AvailabilityResultDto`; `details` is `InventoryDetails`, present only on success. */
  datatype AvailabilityResult = AvailabilityResult(available: bool, message: string, details: Option<seq<Row>>)

  /** `CheckAvailabilityAsync` of the service: the date guard on the full
      timestamps, the room-count guard, then the repository check on the
      calendar days and, when granted, the whole inclusive range as details. */
  function CheckAvailabilityRequest(ledger: Ledger, req: AvailabilityRequest): (r: AvailabilityResult)
    ensures req.start >= req.end ==> r == AvailabilityResult(false, DateOrderMessage, None)
    ensures req.start < req.end && req.rooms <= 0 ==> r == AvailabilityResult(false, RoomCountMessage, None)
    ensures req.start < req.end && req.rooms > 0 ==>
      r.available == CheckAvailability(ledger, req.hotelId, req.roomTypeId, req.FirstDay(), req.LastDay(), req.rooms)
    ensures r.available ==>
      r.message == AvailableMessage
      && r.details == Some(GetInventoryRange(ledger, req.hotelId, req.roomTypeId, req.FirstDay(), req.LastDay()))
    ensures !r.available ==> r.details.None?
    ensures !r.available && req.start < req.end && req.rooms > 0 ==> r.message == UnavailableMessage
  {
    if req.start >= req.end then
      AvailabilityResult(false, DateOrderMessage, None)
    else if req.rooms <= 0 then
      AvailabilityResult(false, RoomCountMessage, None)
    else if CheckAvailability(ledger, req.hotelId, req.roomTypeId, req.FirstDay(), req.LastDay(), req.rooms) then
      AvailabilityResult(true, AvailableMessage,
        Some(GetInventoryRange(ledger, req.hotelId, req.roomTypeId, req.FirstDay(), req.LastDay())))
    else
      AvailabilityResult(false, UnavailableMessage, None)
  }

  /** With every night configured, a request whose calendar days are in
      order is granted exactly when its count is positive and each night has
      room. */
  lemma RequestGrantedIffRoomEveryNight(ledger: Ledger, req: AvailabilityRequest)
    requires UniqueKeys(ledger)
    requires req.FirstDay() < req.LastDay()
    requires NightsConfigured(ledger, req.hotelId, req.roomTypeId, req.FirstDay(), req.LastDay())
    ensures CheckAvailabilityRequest(ledger, req).available
        <==> req.rooms > 0 && RoomEveryNight(ledger, req.hotelId, req.roomTypeId, req.FirstDay(), req.LastDay(), req.rooms)
  {
    assert req.start < req.end;
    CheckMatchesByNight(ledger, req.hotelId, req.roomTypeId, req.FirstDay(), req.LastDay(), req.rooms);
  }

  /** The date guard compares timestamps while the repository compares
      days: a request that starts and ends on the same day, later in the day,
      passes the guard, needs no night and is granted whatever the ledger
      holds, with that day's row (if any) as its details. */
  lemma SameDayRequestGranted(ledger: Ledger, req: AvailabilityRequest)
    requires req.start < req.end && req.FirstDay() == req.LastDay() && req.rooms > 0
    ensures CheckAvailabilityRequest(ledger, req).available
    ensures CheckAvailabilityRequest(ledger, req).details.value
            == RowsOn(ledger, DayKey(req.hotelId, req.roomTypeId, req.FirstDay()))
  {
    var h, rt, d := req.hotelId, req.roomTypeId, req.FirstDay();
    assert RangeFrom(ledger, h, rt, d + 1, d) == [];
  }

  /** The details of a granted request list the checkout-day row too, when
      one exists, although no night is spent on that day. */
  lemma DetailsIncludeCheckoutRow(ledger: Ledger, req: AvailabilityRequest)
    requires CheckAvailabilityRequest(ledger, req).available
    requires GetByHotelRoomAndDate(ledger, req.hotelId, req.roomTypeId, req.LastDay()).Some?
    ensures GetByHotelRoomAndDate(ledger, req.hotelId, req.roomTypeId, req.LastDay()).value
            in CheckAvailabilityRequest(ledger, req).details.value
  {
  }

  /** A newly stored row together with the ledger after the insert. */
  datatype Created = Created(ledger: Ledger, row: Row)

  /** The two foreign keys of an inventory row hold: its hotel and its room
      type exist. Both keys are `Restrict`, so the database refuses to save
      a row that breaks either. Neither asks the room type to belong to the
      hotel. */
  predicate Referenced(hotels: seq<Hotel>, roomTypes: seq<RoomType>, hotelId: int, roomTypeId: int) {
    HotelById(hotels, hotelId).Some? && RoomTypeById(roomTypes, roomTypeId).Some?
  }

  /** Every ledger row satisfies its foreign keys. */
  ghost predicate AllReferenced(ledger: Ledger, hotels: seq<Hotel>, roomTypes: seq<RoomType>) {
    forall i :: 0 <= i < |ledger| ==> Referenced(hotels, roomTypes, ledger[i].hotelId, ledger[i].roomTypeId)
  }

  /** `CreateInventoryAsync`: refuse a day already configured, otherwise
      insert a row for the calendar day of `fecha` with the given total and
      nothing reserved; the save of that row fails when its hotel or room
      type does not exist. */
  function CreateInventory(ledger: Ledger, hotels: seq<Hotel>, roomTypes: seq<RoomType>,
                           hotelId: int, roomTypeId: int, fecha: Moment, total: int): (r: Result<Created>)
    ensures r.Failure? <==>
      GetByHotelRoomAndDate(ledger, hotelId, roomTypeId, DayOf(fecha)).Some? || !Referenced(hotels, roomTypes, hotelId, roomTypeId)
    ensures GetByHotelRoomAndDate(ledger, hotelId, roomTypeId, DayOf(fecha)).Some? ==> r == Failure(DuplicateDayMessage)
    ensures r.Failure? && GetByHotelRoomAndDate(ledger, hotelId, roomTypeId, DayOf(fecha)).None? ==> r.message == ServerErrorMessage
    ensures r.Success? ==>
      && r.value.ledger == ledger + [r.value.row]
      && r.value.row.Key() == DayKey(hotelId, roomTypeId, DayOf(fecha))
      && r.value.row.total == total && r.value.row.reserved == 0
      && forall row :: row in ledger ==> row.id != r.value.row.id
  {
    var day := DayOf(fecha);
    if GetByHotelRoomAndDate(ledger, hotelId, roomTypeId, day).Some? then
      Failure(DuplicateDayMessage)
    else if !Referenced(hotels, roomTypes, hotelId, roomTypeId) then
      Failure(ServerErrorMessage)
    else
      var row := Row(NextId(ledger), hotelId, roomTypeId, day, total, 0);
      Success(Created(ledger + [row], row))
  }

  /** A successful single-day insert keeps the ledger valid when the total
      is a non-negative `int`, and every stored row keeps its foreign keys. */
  lemma CreateKeepsValid(ledger: Ledger, hotels: seq<Hotel>, roomTypes: seq<RoomType>,
                         hotelId: int, roomTypeId: int, fecha: Moment, total: int)
    requires Valid(ledger) && IsInt32(total) && total >= 0
    ensures var r := CreateInventory(ledger, hotels, roomTypes, hotelId, roomTypeId, fecha, total);
      r.Success? ==>
        && Valid(r.value.ledger)
        && (AllReferenced(ledger, hotels, roomTypes) ==> AllReferenced(r.value.ledger, hotels, roomTypes))
  {
    var r := CreateInventory(ledger, hotels, roomTypes, hotelId, roomTypeId, fecha, total);
    if r.Success? {
      AppendKeepsValid(ledger, r.value.row);
    }
  }

  /** The single-day insert does not check the total: a negative one is
      stored, and that row breaks `0 <= reserved <= total`. */
  lemma CreateAcceptsNegativeTotal(ledger: Ledger, hotels: seq<Hotel>, roomTypes: seq<RoomType>,
                                   hotelId: int, roomTypeId: int, fecha: Moment)
    requires GetByHotelRoomAndDate(ledger, hotelId, roomTypeId, DayOf(fecha)).None?
    requires Referenced(hotels, roomTypes, hotelId, roomTypeId)
    ensures var r := CreateInventory(ledger, hotels, roomTypes, hotelId, roomTypeId, fecha, -1);
      r.Success? && !r.value.row.Consistent()
  {
  }

  /** Whether some row carries the primary key `id`. */
  predicate HasId(ledger: Ledger, id: int) {
    exists i :: 0 <= i < |ledger| && ledger[i].id == id
  }

  /** The outcome of a manual update: `null`, an exception, or the new row. */
  datatype UpdateOutcome = NotFound | Rejected(message: string) | Updated(ledger: Ledger, row: Row)

  /** `UpdateInventoryAsync`: look the row up by id, refuse a reserved count
      above the total, otherwise overwrite both counts. */
  function UpdateInventory(ledger: Ledger, id: int, total: int, reserved: int): (r: UpdateOutcome)
    ensures r.NotFound? <==> !HasId(ledger, id)
    ensures r.Rejected? <==> HasId(ledger, id) && reserved > total
    ensures r.Rejected? ==> r.message == ReservedOverTotalMessage
    ensures r.Updated? ==>
      exists i :: 0 <= i < |ledger| && ledger[i].id == id
        && r.row == ledger[i].(total := total, reserved := reserved)
        && r.ledger == ledger[i := r.row]
  {
    match FirstIndex(ledger, (row: Row) => row.id == id)
    case None => NotFound
    case Some(i) =>
      if reserved > total then Rejected(ReservedOverTotalMessage)
      else
        var row := ledger[i].(total := total, reserved := reserved);
        Updated(ledger[i := row], row)
  }

  /** A successful update keeps the ledger valid when the new reserved count
      is not negative and the total an `int`; keys and ids are untouched. */
  lemma UpdateKeepsValid(ledger: Ledger, id: int, total: int, reserved: int)
    requires Valid(ledger) && reserved >= 0 && IsInt32(total)
    ensures var r := UpdateInventory(ledger, id, total, reserved);
      r.Updated? ==> Valid(r.ledger)
  {
    var r := UpdateInventory(ledger, id, total, reserved);
    if r.Updated? {
      var i :| 0 <= i < |ledger| && ledger[i].id == id
        && r.row == ledger[i].(total := total, reserved := reserved)
        && r.ledger == ledger[i := r.row];
      assert forall j :: 0 <= j < |ledger| ==> r.ledger[j].Key() == ledger[j].Key() && r.ledger[j].id == ledger[j].id;
    }
  }

  /** The update guards only `reserved > total`: a negative reserved count
      passes and leaves an inconsistent row. */
  lemma UpdateAcceptsNegativeReserved(ledger: Ledger, id: int)
    requires HasId(ledger, id)
    ensures var r := UpdateInventory(ledger, id, 5, -1);
      r.Updated? && !r.row.Consistent()
  {
  }

  /** The rows a bulk call created and the ledger after it. */
  datatype Provisioned = Provisioned(ledger: Ledger, created: seq<Row>)

  /** The loop of `BulkCreateInventoryAsync` from `day` to `end` (exclusive):
      skip a day that already has a row, otherwise insert one with nothing
      reserved. */
  function ProvisionFrom(ledger: Ledger, hotelId: int, roomTypeId: int, day: int, end: int, total: int): (r: Provisioned)
    ensures r.ledger == ledger + r.created
    ensures forall i :: 0 <= i < |r.created| ==>
      && r.created[i].hotelId == hotelId && r.created[i].roomTypeId == roomTypeId && day <= r.created[i].day < end
      && r.created[i].total == total && r.created[i].reserved == 0
    decreases end - day
  {
    if day >= end then Provisioned(ledger, [])
    else if GetByHotelRoomAndDate(ledger, hotelId, roomTypeId, day).Some? then
      ProvisionFrom(ledger, hotelId, roomTypeId, day + 1, end, total)
    else
      var row := Row(NextId(ledger), hotelId, roomTypeId, day, total, 0);
      var rest := ProvisionFrom(ledger + [row], hotelId, roomTypeId, day + 1, end, total);
      var created := [row] + rest.created;
      AppendAssoc(ledger, [row], rest.created);
      Provisioned(rest.ledger, created)
  }

  /** A provisioning pass creates rows only for days that had none, and
      returns them in ascending date order. */
  lemma {:induction false} ProvisionCreatesMissingDaysInOrder(ledger: Ledger, hotelId: int, roomTypeId: int, day: int, end: int, total: int)
    ensures var r := ProvisionFrom(ledger, hotelId, roomTypeId, day, end, total);
      && StrictlySortedByDay(r.created)
      && forall row :: row in r.created ==> GetByHotelRoomAndDate(ledger, hotelId, roomTypeId, row.day).None?
    decreases end - day
  {
    if day < end {
      if GetByHotelRoomAndDate(ledger, hotelId, roomTypeId, day).Some? {
        ProvisionCreatesMissingDaysInOrder(ledger, hotelId, roomTypeId, day + 1, end, total);
      } else {
        var row := Row(NextId(ledger), hotelId, roomTypeId, day, total, 0);
        var rest := ProvisionFrom(ledger + [row], hotelId, roomTypeId, day + 1, end, total);
        ProvisionCreatesMissingDaysInOrder(ledger + [row], hotelId, roomTypeId, day + 1, end, total);
        DayGroupThenLater([row], rest.created, day);
        forall x | x in rest.created
          ensures GetByHotelRoomAndDate(ledger, hotelId, roomTypeId, x.day).None?
        {
          assert GetByHotelRoomAndDate(ledger + [row], hotelId, roomTypeId, x.day).None?;
        }
      }
    }
  }

  /** After a provisioning pass every day of `[day, end)` has a row. */
  lemma {:induction false} ProvisionCoversEveryDay(ledger: Ledger, hotelId: int, roomTypeId: int, day: int, end: int, total: int)
    ensures forall d :: day <= d < end ==>
      GetByHotelRoomAndDate(ProvisionFrom(ledger, hotelId, roomTypeId, day, end, total).ledger, hotelId, roomTypeId, d).Some?
    decreases end - day
  {
    if day < end {
      var r := ProvisionFrom(ledger, hotelId, roomTypeId, day, end, total);
      var found := GetByHotelRoomAndDate(ledger, hotelId, roomTypeId, day);
      if found.Some? {
        ProvisionCoversEveryDay(ledger, hotelId, roomTypeId, day + 1, end, total);
        assert r == ProvisionFrom(ledger, hotelId, roomTypeId, day + 1, end, total);
        assert found.value in ledger;
        assert found.value in r.ledger;
      } else {
        var row := Row(NextId(ledger), hotelId, roomTypeId, day, total, 0);
        ProvisionCoversEveryDay(ledger + [row], hotelId, roomTypeId, day + 1, end, total);
        assert r.ledger == ProvisionFrom(ledger + [row], hotelId, roomTypeId, day + 1, end, total).ledger;
        assert row in r.ledger;
      }
    }
  }

  /** A provisioning pass with a non-negative `int` total keeps the ledger
      valid: each inserted day was free and each id is new. */
  lemma {:induction false} ProvisionKeepsValid(ledger: Ledger, hotelId: int, roomTypeId: int, day: int, end: int, total: int)
    requires Valid(ledger) && IsInt32(total) && total >= 0
    ensures Valid(ProvisionFrom(ledger, hotelId, roomTypeId, day, end, total).ledger)
    decreases end - day
  {
    if day < end {
      if GetByHotelRoomAndDate(ledger, hotelId, roomTypeId, day).Some? {
        ProvisionKeepsValid(ledger, hotelId, roomTypeId, day + 1, end, total);
      } else {
        var row := Row(NextId(ledger), hotelId, roomTypeId, day, total, 0);
        AppendKeepsValid(ledger, row);
        ProvisionKeepsValid(ledger + [row], hotelId, roomTypeId, day + 1, end, total);
      }
    }
  }

  /** `BulkCreateInventoryAsync`: the date guard on the full timestamps,
      the total guard, the guard on the number of nights between the two
      calendar days, then the day loop over those nights. The first insert
      of the loop fails when the hotel or room type does not exist, and then
      nothing is stored; a loop that inserts nothing never saves. */
  function BulkCreate(ledger: Ledger, hotels: seq<Hotel>, roomTypes: seq<RoomType>,
                      hotelId: int, roomTypeId: int, start: Moment, end: Moment, total: int): (r: Result<Provisioned>)
    ensures start >= end ==> r == Failure(DateOrderMessage)
    ensures start < end && total <= 0 ==> r == Failure(TotalNotPositiveMessage)
    ensures start < end && total > 0 && DayOf(start) == DayOf(end) ==> r == Failure(NoNightMessage)
    ensures r.Success? <==>
      && start < end && total > 0 && DayOf(start) < DayOf(end)
      && (Referenced(hotels, roomTypes, hotelId, roomTypeId)
          || ProvisionFrom(ledger, hotelId, roomTypeId, DayOf(start), DayOf(end), total).created == [])
    ensures r.Failure? && start < end && total > 0 && DayOf(start) < DayOf(end) ==> r.message == ServerErrorMessage
    ensures r.Success? ==> r.value == ProvisionFrom(ledger, hotelId, roomTypeId, DayOf(start), DayOf(end), total)
  {
    if start >= end then Failure(DateOrderMessage)
    else if total <= 0 then Failure(TotalNotPositiveMessage)
    else
      var first, last := DayOf(start), DayOf(end);
      if last - first <= 0 then Failure(NoNightMessage)
      else
        var p := ProvisionFrom(ledger, hotelId, roomTypeId, first, last, total);
        if |p.created| > 0 && !Referenced(hotels, roomTypes, hotelId, roomTypeId) then Failure(ServerErrorMessage)
        else Success(p)
  }

  /** A successful bulk call leaves existing rows untouched, gives every day
      of `[start, end)` a row, creates a row exactly for the days that lacked
      one (with `reserved = 0`), returns them in date order, and keeps the
      ledger valid and every row's foreign keys. */
  lemma BulkCreateFillsMissingDays(ledger: Ledger, hotels: seq<Hotel>, roomTypes: seq<RoomType>,
                                   hotelId: int, roomTypeId: int, start: Moment, end: Moment, total: int)
    requires Valid(ledger) && IsInt32(total)
    ensures var r := BulkCreate(ledger, hotels, roomTypes, hotelId, roomTypeId, start, end, total);
      r.Success? ==>
        && r.value.ledger[..|ledger|] == ledger
        && StrictlySortedByDay(r.value.created)
        && Valid(r.value.ledger)
        && (AllReferenced(ledger, hotels, roomTypes) ==> AllReferenced(r.value.ledger, hotels, roomTypes))
        && (forall row :: row in r.value.created ==> row.reserved == 0 && row.total == total)
        && forall d :: DayOf(start) <= d < DayOf(end) ==>
             && GetByHotelRoomAndDate(r.value.ledger, hotelId, roomTypeId, d).Some?
             && (GetByHotelRoomAndDate(ledger, hotelId, roomTypeId, d).None?
                 <==> GetByHotelRoomAndDate(r.value.ledger, hotelId, roomTypeId, d).value in r.value.created)
  {
    var r := BulkCreate(ledger, hotels, roomTypes, hotelId, roomTypeId, start, end, total);
    if r.Success? {
      var p := r.value;
      assert p == ProvisionFrom(ledger, hotelId, roomTypeId, DayOf(start), DayOf(end), total);
      ProvisionCoversEveryDay(ledger, hotelId, roomTypeId, DayOf(start), DayOf(end), total);
      ProvisionCreatesMissingDaysInOrder(ledger, hotelId, roomTypeId, DayOf(start), DayOf(end), total);
      ProvisionKeepsValid(ledger, hotelId, roomTypeId, DayOf(start), DayOf(end), total);
      assert p.ledger[..|ledger|] == ledger;
      if AllReferenced(ledger, hotels, roomTypes) {
        forall i | 0 <= i < |p.ledger|
          ensures Referenced(hotels, roomTypes, p.ledger[i].hotelId, p.ledger[i].roomTypeId)
        {
          if i >= |ledger| {
            assert p.ledger[i] == p.created[i - |ledger|];
          }
        }
      }
      forall d | DayOf(start) <= d < DayOf(end)
        ensures GetByHotelRoomAndDate(p.ledger, hotelId, roomTypeId, d).Some?
        ensures GetByHotelRoomAndDate(ledger, hotelId, roomTypeId, d).None?
                <==> GetByHotelRoomAndDate(p.ledger, hotelId, roomTypeId, d).value in p.created
      {
        var found := GetByHotelRoomAndDate(p.ledger, hotelId, roomTypeId, d).value;
        LookupFindsStoredRow(p.ledger, found);
        if GetByHotelRoomAndDate(ledger, hotelId, roomTypeId, d).Some? {
          var prior := GetByHotelRoomAndDate(ledger, hotelId, roomTypeId, d).value;
          assert prior in p.ledger;
          LookupFindsStoredRow(p.ledger, prior);
          assert found == prior;
          if found in p.created {
            assert GetByHotelRoomAndDate(ledger, hotelId, roomTypeId, found.day).None?;
          }
        }
      }
    }
  }

  /** A provisioning pass over days that all have rows creates nothing. */
  lemma {:induction false} ConfiguredDaysProvisionNothing(ledger: Ledger, hotelId: int, roomTypeId: int, day: int, end: int, total: int)
    requires forall d :: day <= d < end ==> GetByHotelRoomAndDate(ledger, hotelId, roomTypeId, d).Some?
    ensures ProvisionFrom(ledger, hotelId, roomTypeId, day, end, total) == Provisioned(ledger, [])
    decreases end - day
  {
    if day < end {
      ConfiguredDaysProvisionNothing(ledger, hotelId, roomTypeId, day + 1, end, total);
    }
  }

  /** With a hotel or room type that does not exist, a bulk call whose
      guards pass fails exactly when some night of the range lacks a row:
      a range already fully configured saves nothing and succeeds. */
  lemma BulkCreateRefusedIffDayMissing(ledger: Ledger, hotels: seq<Hotel>, roomTypes: seq<RoomType>,
                                       hotelId: int, roomTypeId: int, start: Moment, end: Moment, total: int)
    requires start < end && total > 0 && DayOf(start) < DayOf(end)
    requires !Referenced(hotels, roomTypes, hotelId, roomTypeId)
    ensures BulkCreate(ledger, hotels, roomTypes, hotelId, roomTypeId, start, end, total).Failure?
        <==> exists d :: DayOf(start) <= d < DayOf(end) && GetByHotelRoomAndDate(ledger, hotelId, roomTypeId, d).None?
  {
    var p := ProvisionFrom(ledger, hotelId, roomTypeId, DayOf(start), DayOf(end), total);
    if exists d :: DayOf(start) <= d < DayOf(end) && GetByHotelRoomAndDate(ledger, hotelId, roomTypeId, d).None? {
      var d :| DayOf(start) <= d < DayOf(end) && GetByHotelRoomAndDate(ledger, hotelId, roomTypeId, d).None?;
      ProvisionCoversEveryDay(ledger, hotelId, roomTypeId, DayOf(start), DayOf(end), total);
      assert GetByHotelRoomAndDate(p.ledger, hotelId, roomTypeId, d).Some?;
    } else {
      ConfiguredDaysProvisionNothing(ledger, hotelId, roomTypeId, DayOf(start), DayOf(end), total);
    }
  }

  /** Bulk provisioning is idempotent: repeating a successful call, with any
      total, creates nothing and leaves the ledger as the first call left it. */
  lemma BulkCreateIdempotent(ledger: Ledger, hotels: seq<Hotel>, roomTypes: seq<RoomType>,
                             hotelId: int, roomTypeId: int, start: Moment, end: Moment, total: int, again: int)
    requires BulkCreate(ledger, hotels, roomTypes, hotelId, roomTypeId, start, end, total).Success?
    requires again > 0
    ensures var once := BulkCreate(ledger, hotels, roomTypes, hotelId, roomTypeId, start, end, total).value.ledger;
      BulkCreate(once, hotels, roomTypes, hotelId, roomTypeId, start, end, again) == Success(Provisioned(once, []))
  {
    var once := BulkCreate(ledger, hotels, roomTypes, hotelId, roomTypeId, start, end, total).value.ledger;
    assert once == ProvisionFrom(ledger, hotelId, roomTypeId, DayOf(start), DayOf(end), total).ledger;
    ProvisionCoversEveryDay(ledger, hotelId, roomTypeId, DayOf(start), DayOf(end), total);
    ConfiguredDaysProvisionNothing(once, hotelId, roomTypeId, DayOf(start), DayOf(end), again);
  }
}
