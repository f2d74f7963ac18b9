/** `ReservationService`: the validation chain in front of a booking, the
    booking itself (reservation plus ledger increment), cancellation and the
    free-form status update. The store is a value; every operation returns
    the store it leaves behind. */
module ReservationService {
  import opened Common
  import opened Calendar
  import opened Inventory
  import opened InventoryRepository
  import opened Entities

  const PastEntryMessage := "The entry date cannot be in the past"
  const ExitNotAfterEntryMessage := "The exit date must be after the entry date"
  const RoomCountMessage := "The number of rooms must be greater than 0"
  const HotelMissingMessage := "Hotel not found"
  const HotelInactiveMessage := "The hotel is not active"
  const RoomTypeMissingMessage := "Room type not found"
  const NoAvailabilityMessage := "No availability for the selected dates"
  const CreatedMessage := "Reservation created successfully"
  const ConfirmedStatus := "Confirmed"
  const CancelledStatus := "Cancelled"

  /** Everything the service reads and writes. */
  datatype Store = Store(hotels: seq<Hotel>, roomTypes: seq<RoomType>, ledger: Ledger, reservations: seq<Reservation>)

  /** `CreateReservationDto`; the dates keep their time of day. */
  datatype ReservationRequest = ReservationRequest(
    hotelId: int, roomTypeId: int, guest: string, entry: Moment, exit: Moment, rooms: int)
  {
    function FirstDay(): nat { DayOf(entry) }
    function LastDay(): nat { DayOf(exit) }
  }

  /** `ReservationDto`: the stored reservation, the names of its hotel and
      room type when they exist, and its nights. */
  datatype ReservationView = ReservationView(reservation: Reservation, hotelName: Option<string>, roomTypeName: Option<string>, nights: int)

  /** `ReservationResultDto`. */
  datatype ReservationOutcome = ReservationOutcome(success: bool, message: string, view: Option<ReservationView>)

  /** A service call: the store afterwards and what the caller receives. */
  datatype Booking = Booking(store: Store, outcome: ReservationOutcome)

  /** `MapToDto`: `Noches` counts whole elapsed days between the two stored
      timestamps. */
  function MapToDto(store: Store, res: Reservation): (r: ReservationView)
    ensures r.reservation == res
    ensures res.entry <= res.exit ==> r.nights >= 0 && r.nights * TicksPerDay <= res.exit - res.entry < (r.nights + 1) * TicksPerDay
    ensures r.hotelName.Some? <==> HotelById(store.hotels, res.hotelId).Some?
    ensures r.roomTypeName.Some? <==> RoomTypeById(store.roomTypes, res.roomTypeId).Some?
  {
    var hotel := HotelById(store.hotels, res.hotelId);
    var roomType := RoomTypeById(store.roomTypes, res.roomTypeId);
    ReservationView(
      res,
      if hotel.Some? then Some(hotel.value.name) else None,
      if roomType.Some? then Some(roomType.value.name) else None,
      WholeDays(res.entry, res.exit))
  }

  /** `MontoTotal`: the base price per room and night, times the nights,
      times the rooms. */
  function Price(basePrice: int, nights: int, rooms: int): int {
    basePrice * nights * rooms
  }

  /** The conditions under which a booking goes through, stated without
      their order. */
  predicate Admissible(store: Store, req: ReservationRequest, today: nat) {
    && req.FirstDay() >= today
    && req.entry < req.exit
    && req.rooms > 0
    && HotelById(store.hotels, req.hotelId).Some?
    && HotelById(store.hotels, req.hotelId).value.active
    && RoomTypeById(store.roomTypes, req.roomTypeId).Some?
    && CheckAvailability(store.ledger, req.hotelId, req.roomTypeId, req.FirstDay(), req.LastDay(), req.rooms)
  }

  /** The first failing check of the chain, if any. `DateTime.Today` is the
      midnight of day `today`. */
  function Rejection(store: Store, req: ReservationRequest, today: nat): (r: Option<string>)
    ensures r.None? <==> Admissible(store, req, today)
  {
    BeforeMidnightIffEarlierDay(req.entry, today);
    if req.entry < Midnight(today) then Some(PastEntryMessage)
    else if req.exit <= req.entry then Some(ExitNotAfterEntryMessage)
    else if req.rooms <= 0 then Some(RoomCountMessage)
    else
      match HotelById(store.hotels, req.hotelId)
      case None => Some(HotelMissingMessage)
      case Some(hotel) =>
        if !hotel.active then Some(HotelInactiveMessage)
        else if RoomTypeById(store.roomTypes, req.roomTypeId).None? then Some(RoomTypeMissingMessage)
        else if !CheckAvailability(store.ledger, req.hotelId, req.roomTypeId, req.FirstDay(), req.LastDay(), req.rooms)
        then Some(NoAvailabilityMessage)
        else None
  }

  /** `CreateReservationAsync`. `today` is `DateTime.Today` as a day number
      and `now` is `DateTime.UtcNow`. */
  function CreateReservation(store: Store, req: ReservationRequest, today: nat, now: Moment): (r: Booking)
    // The checks short-circuit in a fixed order; the first failure decides.
    ensures req.FirstDay() < today ==> r.outcome.message == PastEntryMessage
    ensures req.FirstDay() >= today && req.exit <= req.entry ==> r.outcome.message == ExitNotAfterEntryMessage
    ensures req.FirstDay() >= today && req.entry < req.exit && req.rooms <= 0 ==> r.outcome.message == RoomCountMessage
    ensures req.FirstDay() >= today && req.entry < req.exit && req.rooms > 0 ==>
      && (HotelById(store.hotels, req.hotelId).None? ==> r.outcome.message == HotelMissingMessage)
      && ((HotelById(store.hotels, req.hotelId).Some? && !HotelById(store.hotels, req.hotelId).value.active)
            ==> r.outcome.message == HotelInactiveMessage)
    ensures req.FirstDay() >= today && req.entry < req.exit && req.rooms > 0
            && HotelById(store.hotels, req.hotelId).Some? && HotelById(store.hotels, req.hotelId).value.active ==>
      && (RoomTypeById(store.roomTypes, req.roomTypeId).None? ==> r.outcome.message == RoomTypeMissingMessage)
      && ((RoomTypeById(store.roomTypes, req.roomTypeId).Some?
           && !CheckAvailability(store.ledger, req.hotelId, req.roomTypeId, req.FirstDay(), req.LastDay(), req.rooms))
            ==> r.outcome.message == NoAvailabilityMessage)
    ensures r.outcome.success <==> Admissible(store, req, today)
    // A rejected request changes nothing.
    ensures !r.outcome.success ==> r.store == store && r.outcome.view.None?
    // An accepted one adds exactly one confirmed reservation and reserves the stay.
    ensures r.outcome.success ==>
      && r.outcome.message == CreatedMessage
      && r.store.hotels == store.hotels && r.store.roomTypes == store.roomTypes
      && |r.store.reservations| == |store.reservations| + 1
      && r.store.reservations[..|store.reservations|] == store.reservations
      && r.outcome.view.Some?
      && var res := r.outcome.view.value.reservation;
      && res == r.store.reservations[|store.reservations|]
      && (forall x :: x in store.reservations ==> x.id != res.id)
      && res.hotelId == req.hotelId && res.roomTypeId == req.roomTypeId && res.guest == req.guest
      && res.entry == req.entry && res.exit == req.exit
      && res.status == ConfirmedStatus && res.createdAt == now
      && res.amount == Price(RoomTypeById(store.roomTypes, req.roomTypeId).value.basePrice,
                             WholeDays(req.entry, req.exit), req.rooms)
      && r.store.ledger == ReserveRooms(store.ledger, req.hotelId, req.roomTypeId, req.FirstDay(), req.LastDay(), req.rooms)
  {
    BeforeMidnightIffEarlierDay(req.entry, today);
    match Rejection(store, req, today)
    case Some(message) => Booking(store, ReservationOutcome(false, message, None))
    case None =>
      var roomType := RoomTypeById(store.roomTypes, req.roomTypeId).value;
      var nights := WholeDays(req.entry, req.exit);
      var res := Reservation(
        FreshId(store.reservations, (x: Reservation) => x.id),
        req.hotelId, req.roomTypeId, req.guest, req.entry, req.exit,
        ConfirmedStatus, Price(roomType.basePrice, nights, req.rooms), now);
      var withReservation := store.(reservations := store.reservations + [res]);
      var after := withReservation.(ledger :=
        ReserveRooms(store.ledger, req.hotelId, req.roomTypeId, req.FirstDay(), req.LastDay(), req.rooms));
      Booking(after, ReservationOutcome(true, CreatedMessage, Some(MapToDto(after, res))))
  }

  /** Bookings keep the ledger valid: the check in front of the increment
      and the positive room count keep `0 <= reserved <= total`, and keys
      and ids are not touched. The room count is the request's `int` field. */
  lemma BookingKeepsLedgerValid(store: Store, req: ReservationRequest, today: nat, now: Moment)
    requires Valid(store.ledger) && IsInt32(req.rooms)
    ensures Valid(CreateReservation(store, req, today, now).store.ledger)
  {
    if Admissible(store, req, today) {
      ReserveAfterCheckKeepsConsistency(store.ledger, req.hotelId, req.roomTypeId, req.FirstDay(), req.LastDay(), req.rooms);
      ReserveRoomsKeepsKeys(store.ledger, req.hotelId, req.roomTypeId, req.FirstDay(), req.LastDay(), req.rooms);
    }
  }

  /** When every night of the stay has its own row, an accepted booking
      reserves `rooms` more on exactly those rows and on no other. */
  lemma BookingReservesEachNight(store: Store, req: ReservationRequest, today: nat, now: Moment)
    requires UniqueKeys(store.ledger) && UniqueIds(store.ledger)
    requires NightsConfigured(store.ledger, req.hotelId, req.roomTypeId, req.FirstDay(), req.LastDay())
    requires CreateReservation(store, req, today, now).outcome.success
    ensures var after := CreateReservation(store, req, today, now).store.ledger;
      forall i :: 0 <= i < |store.ledger| ==>
        after[i] == if store.ledger[i].hotelId == req.hotelId && store.ledger[i].roomTypeId == req.roomTypeId
                       && req.FirstDay() <= store.ledger[i].day < req.LastDay()
                    then store.ledger[i].Reserve(req.rooms) else store.ledger[i]
  {
    ReserveMatchesByNight(store.ledger, req.hotelId, req.roomTypeId, req.FirstDay(), req.LastDay(), req.rooms);
  }

  /** The room type is looked up by id alone: one that belongs to another
      hotel is booked against the requested hotel's ledger rows. */
  lemma RoomTypeOfAnotherHotelAccepted(store: Store, req: ReservationRequest, today: nat, now: Moment)
    requires Admissible(store, req, today)
    requires RoomTypeById(store.roomTypes, req.roomTypeId).value.hotelId != req.hotelId
    ensures CreateReservation(store, req, today, now).outcome.success
    ensures CreateReservation(store, req, today, now).outcome.view.value.reservation.hotelId == req.hotelId
  {
  }

  /** With entry and exit at the same time of day, the amount is base price
      times calendar nights times rooms. */
  lemma PriceWithAlignedTimes(store: Store, req: ReservationRequest, today: nat, now: Moment)
    requires CreateReservation(store, req, today, now).outcome.success
    requires req.entry % TicksPerDay == req.exit % TicksPerDay
    ensures CreateReservation(store, req, today, now).outcome.view.value.reservation.amount
         == Price(RoomTypeById(store.roomTypes, req.roomTypeId).value.basePrice,
                  Nights(req.FirstDay(), req.LastDay()), req.rooms)
    ensures CreateReservation(store, req, today, now).outcome.view.value.nights == Nights(req.FirstDay(), req.LastDay())
  {
    WholeDaysVersusDates(req.entry, req.exit);
    assert WholeDays(req.entry, req.exit) == Nights(req.FirstDay(), req.LastDay());
  }

  /** With a checkout earlier in the day than the check-in, the price counts
      one night fewer than the calendar nights the ledger reserves. */
  lemma PriceWithEarlierCheckoutTime(store: Store, req: ReservationRequest, today: nat, now: Moment)
    requires CreateReservation(store, req, today, now).outcome.success
    requires req.exit % TicksPerDay < req.entry % TicksPerDay
    ensures var view := CreateReservation(store, req, today, now).outcome.view.value;
      && view.nights == Nights(req.FirstDay(), req.LastDay()) - 1
      && view.reservation.amount == Price(RoomTypeById(store.roomTypes, req.roomTypeId).value.basePrice, view.nights, req.rooms)
  {
    WholeDaysVersusDates(req.entry, req.exit);
  }

  /** The price counts whole elapsed days while the ledger counts calendar
      nights: checking in one afternoon and out the next morning reserves
      one night and charges nothing. */
  lemma OvernightStayChargedNothing(store: Store, req: ReservationRequest, today: nat, now: Moment)
    requires CreateReservation(store, req, today, now).outcome.success
    requires req.LastDay() == req.FirstDay() + 1
    requires req.exit % TicksPerDay < req.entry % TicksPerDay
    ensures CreateReservation(store, req, today, now).outcome.view.value.reservation.amount == 0
    ensures |StayRows(store.ledger, req.hotelId, req.roomTypeId, req.FirstDay(), req.LastDay())| == 1
  {
    PriceWithEarlierCheckoutTime(store, req, today, now);
  }

  /** `CancelReservationAsync`: an unknown id reports false; otherwise the
      status becomes `Cancelled` and nothing else changes. */
  function Cancel(store: Store, id: int): (r: (Store, bool))
    ensures !r.1 <==> forall x :: x in store.reservations ==> x.id != id
    ensures !r.1 ==> r.0 == store
    ensures r.1 ==>
      && r.0.hotels == store.hotels && r.0.roomTypes == store.roomTypes && r.0.ledger == store.ledger
      && |r.0.reservations| == |store.reservations|
      && exists i :: 0 <= i < |store.reservations| && store.reservations[i].id == id
           && r.0.reservations == store.reservations[i := store.reservations[i].(status := CancelledStatus)]
  {
    match ReservationIndex(store.reservations, id)
    case None => (store, false)
    case Some(i) =>
      var cancelled := store.reservations[i].(status := CancelledStatus);
      (store.(reservations := store.reservations[i := cancelled]), true)
  }

  /** Cancelling does not hand the rooms back: after a booking and its
      cancellation the ledger still carries the booking's increment. */
  lemma CancelKeepsRoomsReserved(store: Store, req: ReservationRequest, today: nat, now: Moment)
    requires CreateReservation(store, req, today, now).outcome.success
    ensures var booked := CreateReservation(store, req, today, now);
      var cancelled := Cancel(booked.store, booked.outcome.view.value.reservation.id);
      && cancelled.1
      && cancelled.0.ledger == ReserveRooms(store.ledger, req.hotelId, req.roomTypeId, req.FirstDay(), req.LastDay(), req.rooms)
  {
    var booked := CreateReservation(store, req, today, now);
    var res := booked.outcome.view.value.reservation;
    assert res in booked.store.reservations;
  }

  /** `UpdateReservationStatusAsync`: an unknown id gives nothing; otherwise
      the status is overwritten with any string and nothing else changes. */
  function UpdateStatus(store: Store, id: int, status: string): (r: (Store, Option<ReservationView>))
    ensures r.1.None? <==> forall x :: x in store.reservations ==> x.id != id
    ensures r.1.None? ==> r.0 == store
    ensures r.1.Some? ==>
      && r.0.hotels == store.hotels && r.0.roomTypes == store.roomTypes && r.0.ledger == store.ledger
      && r.1.value.reservation.status == status && r.1.value.reservation.id == id
      && exists i :: 0 <= i < |store.reservations| && store.reservations[i].id == id
           && r.1.value.reservation == store.reservations[i].(status := status)
           && r.0.reservations == store.reservations[i := r.1.value.reservation]
  {
    match ReservationIndex(store.reservations, id)
    case None => (store, None)
    case Some(i) =>
      var updated := store.reservations[i].(status := status);
      var after := store.(reservations := store.reservations[i := updated]);
      (after, Some(MapToDto(after, updated)))
  }

  /** A status update followed by a second one to the same reservation ends
      as if only the second had run. */
  lemma LastStatusWins(store: Store, id: int, first: string, second: string)
    ensures UpdateStatus(UpdateStatus(store, id, first).0, id, second).0 == UpdateStatus(store, id, second).0
  {
    var once := UpdateStatus(store, id, first).0;
    SameIdsSameIndex(store.reservations, once.reservations, id);
  }

  /** The position of an id depends only on the ids, in order. */
  lemma SameIdsSameIndex(a: seq<Reservation>, b: seq<Reservation>, id: int)
    requires |a| == |b| && forall k :: 0 <= k < |a| ==> a[k].id == b[k].id
    ensures ReservationIndex(a, id) == ReservationIndex(b, id)
  {
  }
}
