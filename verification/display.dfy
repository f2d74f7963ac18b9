/** The front end's pure mappers from back-end DTOs to display models:
    status classification, zero-padded display ids and name fallbacks. */
module Display {
  import opened Common
  import opened Calendar
  import opened Text
  import opened Entities
  import opened ReservationService

  /** `mapEstadoToStatus`: classify a status string by the fragments its
      lower-cased form contains, `confirm` first, then `pend`, then `cancel`;
      anything else passes through unchanged. */
  function MapEstadoToStatus(estado: string): (r: string)
    ensures Contains(Lower(estado), "confirm") ==> r == "confirmed"
    ensures !Contains(Lower(estado), "confirm") && Contains(Lower(estado), "pend") ==> r == "pending"
    ensures !Contains(Lower(estado), "confirm") && !Contains(Lower(estado), "pend") && Contains(Lower(estado), "cancel")
            ==> r == "cancelled"
    ensures !Contains(Lower(estado), "confirm") && !Contains(Lower(estado), "pend") && !Contains(Lower(estado), "cancel")
            ==> r == estado
  {
    var e := Lower(estado);
    if Contains(e, "confirm") then "confirmed"
    else if Contains(e, "pend") then "pending"
    else if Contains(e, "cancel") then "cancelled"
    else estado
  }

  /** A string in which one letter of `t` never occurs does not contain `t`. */
  lemma AbsentLetter(e: string, t: string, k: nat)
    requires k < |t| && forall i :: 0 <= i < |e| ==> e[i] != t[k]
    ensures !Contains(e, t)
  {
    forall i ensures !OccursAt(e, t, i) {
      if 0 <= i && i + |t| <= |e| {
        assert e[i..i + |t|][k] == e[i + k];
      }
    }
  }

  /** `estado` begins, up to case, with `t`. */
  predicate BeginsWith(estado: string, t: string) {
    |t| <= |estado| && forall i :: 0 <= i < |t| ==> LowerChar(estado[i]) == t[i]
  }

  /** No letter of `estado`, lower-cased, is `c`. */
  predicate Lacks(estado: string, c: char) {
    forall i :: 0 <= i < |estado| ==> LowerChar(estado[i]) != c
  }

  lemma BeginsWithContains(estado: string, t: string)
    requires BeginsWith(estado, t)
    ensures Contains(Lower(estado), t)
  {
    assert Lower(estado)[..|t|] == t;
    assert OccursAt(Lower(estado), t, 0);
  }

  lemma LacksLetter(estado: string, t: string, k: nat)
    requires k < |t| && Lacks(estado, t[k])
    ensures !Contains(Lower(estado), t)
  {
    AbsentLetter(Lower(estado), t, k);
  }

  lemma ShownConfirmed(estado: string)
    requires BeginsWith(estado, "confirm")
    ensures MapEstadoToStatus(estado) == "confirmed"
  {
    BeginsWithContains(estado, "confirm");
  }

  lemma ShownPending(estado: string)
    requires BeginsWith(estado, "pend") && Lacks(estado, 'f')
    ensures MapEstadoToStatus(estado) == "pending"
  {
    LacksLetter(estado, "confirm", 3);
    BeginsWithContains(estado, "pend");
  }

  lemma ShownCancelled(estado: string)
    requires BeginsWith(estado, "cancel") && Lacks(estado, 'f') && Lacks(estado, 'p')
    ensures MapEstadoToStatus(estado) == "cancelled"
  {
    LacksLetter(estado, "confirm", 3);
    LacksLetter(estado, "pend", 0);
    BeginsWithContains(estado, "cancel");
  }

  // The `Shows*` lemmas below only instantiate `ShownConfirmed`,
  // `ShownPending` and `ShownCancelled` at one literal each; they are kept
  // apart because one proof over several literals is too costly.

  lemma ShowsConfirmed()
    ensures MapEstadoToStatus(ConfirmedStatus) == "confirmed"
  {
    ShownConfirmed(ConfirmedStatus);
  }

  lemma ShowsConfirmada()
    ensures MapEstadoToStatus(DefaultStatus) == "confirmed"
  {
    ShownConfirmed(DefaultStatus);
  }

  lemma ShowsCancelled()
    ensures MapEstadoToStatus(CancelledStatus) == "cancelled"
  {
    ShownCancelled(CancelledStatus);
  }

  lemma ShowsCancelada()
    ensures MapEstadoToStatus("Cancelada") == "cancelled"
  {
    ShownCancelled("Cancelada");
  }

  lemma ShowsPending()
    ensures MapEstadoToStatus("Pending") == "pending"
  {
    ShownPending("Pending");
  }

  lemma ShowsPendiente()
    ensures MapEstadoToStatus("Pendiente") == "pending"
  {
    ShownPending("Pendiente");
  }

  lemma ShowsLowerConfirmed()
    ensures MapEstadoToStatus("confirmed") == "confirmed"
  {
    ShownConfirmed("confirmed");
  }

  lemma ShowsLowerPending()
    ensures MapEstadoToStatus("pending") == "pending"
  {
    ShownPending("pending");
  }

  lemma ShowsLowerCancelled()
    ensures MapEstadoToStatus("cancelled") == "cancelled"
  {
    ShownCancelled("cancelled");
  }

  /** The statuses the service writes and the Spanish ones of the entity
      default and the seed data are displayed alike. */
  lemma SpanishAndEnglishStatusesAgree()
    ensures MapEstadoToStatus(ConfirmedStatus) == MapEstadoToStatus(DefaultStatus) == "confirmed"
    ensures MapEstadoToStatus(CancelledStatus) == MapEstadoToStatus("Cancelada") == "cancelled"
    ensures MapEstadoToStatus("Pending") == MapEstadoToStatus("Pendiente") == "pending"
  {
    ShowsConfirmed();
    ShowsConfirmada();
    ShowsCancelled();
    ShowsCancelada();
    ShowsPending();
    ShowsPendiente();
  }

  /** The three display statuses are fixed points of the classification. */
  lemma DisplayStatusesFixed()
    ensures MapEstadoToStatus("confirmed") == "confirmed"
    ensures MapEstadoToStatus("pending") == "pending"
    ensures MapEstadoToStatus("cancelled") == "cancelled"
  {
    ShowsLowerConfirmed();
    ShowsLowerPending();
    ShowsLowerCancelled();
  }

  /** Every fragment the classification looks for has an `n`: a status
      without one is shown as stored. */
  lemma WithoutNShownAsStored(estado: string)
    requires Lacks(estado, 'n')
    ensures MapEstadoToStatus(estado) == estado
  {
    LacksLetter(estado, "confirm", 2);
    LacksLetter(estado, "pend", 2);
    LacksLetter(estado, "cancel", 2);
  }

  /** Classification is stable: mapping a displayed status again gives the
      same status. */
  lemma MapEstadoIdempotent(estado: string)
    ensures MapEstadoToStatus(MapEstadoToStatus(estado)) == MapEstadoToStatus(estado)
  {
    DisplayStatusesFixed();
  }

  /** The classification ignores letter case: a status and its lower-cased
      form fall in the same family, and one in no family is shown as given. */
  lemma MapEstadoIgnoresCase(estado: string)
    ensures || MapEstadoToStatus(Lower(estado)) == MapEstadoToStatus(estado)
            || (MapEstadoToStatus(estado) == estado && MapEstadoToStatus(Lower(estado)) == Lower(estado))
  {
    LowerIdempotent(estado);
  }

  /** A display id: a one-letter prefix and the decimal text of the id
      left-padded with zeros to at least three characters (`padStart(3, "0")`;
      a negative id gets its zeros ahead of the minus sign). */
  function DisplayId(prefix: char, id: int): (r: string)
    ensures |r| == 1 + if |IntToString(id)| >= 3 then |IntToString(id)| else 3
    ensures r[0] == prefix
    ensures r[|r| - |IntToString(id)|..] == IntToString(id)
    ensures forall i :: 1 <= i < |r| - |IntToString(id)| ==> r[i] == '0'
    ensures 0 <= id < 1000 ==> |r| == 4
    ensures id >= 100 ==> r[1..] == IntToString(id)
    ensures id >= 0 ==> AllDigits(r[1..])
  {
    var digits := PadStart(IntToString(id), 3, '0');
    if id >= 0 then ThreeDigitWidth(id); [prefix] + digits else [prefix] + digits
  }

  /** For a non-negative id the digits after the prefix read back as the id,
      so distinct ids get distinct display ids. */
  lemma DisplayIdRoundTrip(prefix: char, id: nat)
    ensures DigitsValue(DisplayId(prefix, id)[1..]) == id
  {
    var r := DisplayId(prefix, id);
    assert r[1..] == PadStart(NatToString(id), 3, '0');
    NatToStringRoundTrip(id);
    ZeroPaddingValue(NatToString(id), 3);
  }

  lemma DisplayIdInjective(prefix: char, a: nat, b: nat)
    requires DisplayId(prefix, a) == DisplayId(prefix, b)
    ensures a == b
  {
    DisplayIdRoundTrip(prefix, a);
    DisplayIdRoundTrip(prefix, b);
  }

  /** `UiReservation`. */
  datatype UiReservation = UiReservation(
    id: string, backendId: int, guestName: string, hotelName: string,
    checkIn: Moment, checkOut: Moment, status: string, roomType: string, total: int)

  /** `mapReservation`. */
  function MapReservation(dto: ReservationView): (r: UiReservation)
    ensures r.id == DisplayId('R', dto.reservation.id) && r.backendId == dto.reservation.id
    ensures r.hotelName == if dto.hotelName.Some? then dto.hotelName.value else "Hotel " + IntToString(dto.reservation.hotelId)
    ensures r.roomType == if dto.roomTypeName.Some? then dto.roomTypeName.value else "RoomType " + IntToString(dto.reservation.roomTypeId)
    ensures r.status == MapEstadoToStatus(dto.reservation.status)
    ensures r.guestName == dto.reservation.guest && r.total == dto.reservation.amount
    ensures r.checkIn == dto.reservation.entry && r.checkOut == dto.reservation.exit
  {
    var res := dto.reservation;
    UiReservation(
      DisplayId('R', res.id), res.id, res.guest,
      if dto.hotelName.Some? then dto.hotelName.value else "Hotel " + IntToString(res.hotelId),
      res.entry, res.exit, MapEstadoToStatus(res.status),
      if dto.roomTypeName.Some? then dto.roomTypeName.value else "RoomType " + IntToString(res.roomTypeId),
      res.amount)
  }

  /** A booking made through the service is shown as confirmed, under its
      own display id. */
  lemma BookedReservationShownConfirmed(store: Store, req: ReservationRequest, today: nat, now: Moment)
    requires CreateReservation(store, req, today, now).outcome.success
    ensures var view := CreateReservation(store, req, today, now).outcome.view.value;
      MapReservation(view).status == "confirmed"
  {
    SpanishAndEnglishStatusesAgree();
  }

  /** `UiHotel`. */
  datatype UiHotel = UiHotel(
    id: string, name: string, location: string, rooms: int, status: string,
    occupancy: int, rating: int, lastUpdated: string)

  /** The hotel mapping of `fetchHotels` and `fetchPagedHotels`; `today` is
      the current date as the browser formats it. */
  function MapHotel(h: Hotel, today: string): (r: UiHotel)
    ensures r.id == DisplayId('H', h.id)
    ensures r.status == "active" <==> h.active
    ensures !h.active ==> r.status == "inactive"
    ensures r.name == h.name && r.location == h.address && r.rating == h.category
    ensures r.rooms == 0 && r.occupancy == 0 && r.lastUpdated == today
  {
    UiHotel(DisplayId('H', h.id), h.name, h.address, 0, if h.active then "active" else "inactive", 0, h.category, today)
  }

  /** Hotel and reservation display ids never collide. */
  lemma HotelAndReservationIdsDiffer(h: Hotel, today: string, dto: ReservationView)
    ensures MapHotel(h, today).id != MapReservation(dto).id
  {
    assert MapHotel(h, today).id[0] == 'H';
    assert MapReservation(dto).id[0] == 'R';
  }
}
