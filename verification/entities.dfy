/** The catalogue entities around the ledger (`Hotel`, `RoomType`,
    `Reservation`) and their lookups by primary key. */
module Entities {
  import opened Common
  import opened Calendar

  /** A hotel; `active` is `Estado` (true = active). */
  datatype Hotel = Hotel(id: int, name: string, address: string, category: int, active: bool)

  /** A room type; `basePrice` is `PrecioBase` in cents, per room and night. */
  datatype RoomType = RoomType(id: int, name: string, basePrice: int, hotelId: int)

  /** A reservation; `amount` is `MontoTotal` in cents. The number of rooms
      booked is not stored. */
  datatype Reservation = Reservation(
    id: int, hotelId: int, roomTypeId: int, guest: string,
    entry: Moment, exit: Moment, status: string, amount: int, createdAt: Moment)

  /** The status a reservation built without one carries. */
  const DefaultStatus := "Confirmada"

  /** `GetByIdAsync` on hotels. */
  function HotelById(hotels: seq<Hotel>, id: int): (r: Option<Hotel>)
    ensures r.Some? ==> r.value in hotels && r.value.id == id
    ensures r.None? <==> forall h :: h in hotels ==> h.id != id
  {
    match FirstIndex(hotels, (h: Hotel) => h.id == id)
    case None => None
    case Some(i) => Some(hotels[i])
  }

  /** `GetByIdAsync` on room types. */
  function RoomTypeById(roomTypes: seq<RoomType>, id: int): (r: Option<RoomType>)
    ensures r.Some? ==> r.value in roomTypes && r.value.id == id
    ensures r.None? <==> forall t :: t in roomTypes ==> t.id != id
  {
    match FirstIndex(roomTypes, (t: RoomType) => t.id == id)
    case None => None
    case Some(i) => Some(roomTypes[i])
  }

  /** The position of the reservation with primary key `id`. */
  function ReservationIndex(reservations: seq<Reservation>, id: int): (r: Option<nat>)
    ensures r.Some? ==> r.value < |reservations| && reservations[r.value].id == id
    ensures r.Some? ==> forall j :: 0 <= j < r.value ==> reservations[j].id != id
    ensures r.None? <==> forall x :: x in reservations ==> x.id != id
  {
    FirstIndex(reservations, (x: Reservation) => x.id == id)
  }
}
