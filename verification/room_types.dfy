/** The room-type operations of `RoomTypesController` that carry logic:
    bulk reassignment to a hotel, the name/price update and the per-hotel
    listing. */
module RoomTypes {
  import opened Common
  import opened Text
  import opened Entities

  const NoIdsMessage := "Debe especificar al menos un tipo de habitación"
  const NoneFoundMessage := "No se encontraron tipos de habitación para los IDs especificados"
  const AssignedMessage := "Tipos de habitación asignados correctamente"

  function HotelNotFoundMessage(id: int): string {
    "Hotel con ID " + IntToString(id) + " no encontrado"
  }

  function RoomTypeNotFoundMessage(id: int): string {
    "Tipo de habitación con ID " + IntToString(id) + " no encontrado"
  }

  /** The HTTP answer of an action: 400, 404 or 200 with its body. */
  datatype Response<+T> = BadRequest(message: string) | NotFound(message: string) | Ok(body: T)

  /** The body of a successful assignment. */
  datatype Assignment = Assignment(message: string, hotelId: int, assignedIds: seq<int>)

  /** `GetRoomTypesByHotel`: the room types whose hotel is `hotelId`, in
      store order. */
  function ByHotel(roomTypes: seq<RoomType>, hotelId: int): (r: seq<RoomType>)
    ensures forall t :: t in r <==> t in roomTypes && t.hotelId == hotelId
    ensures |r| <= |roomTypes|
  {
    if |roomTypes| == 0 then []
    else (if roomTypes[0].hotelId == hotelId then [roomTypes[0]] else []) + ByHotel(roomTypes[1..], hotelId)
  }

  /** `FindAsync(rt => ids.Contains(rt.Id))`: the listed room types, in store order. */
  function Listed(roomTypes: seq<RoomType>, ids: seq<int>): (r: seq<RoomType>)
    ensures forall t :: t in r <==> t in roomTypes && t.id in ids
    ensures |r| <= |roomTypes|
  {
    if |roomTypes| == 0 then []
    else (if roomTypes[0].id in ids then [roomTypes[0]] else []) + Listed(roomTypes[1..], ids)
  }

  /** The ids of a sequence of room types, in order. */
  function Ids(roomTypes: seq<RoomType>): (r: seq<int>)
    ensures |r| == |roomTypes| && forall i :: 0 <= i < |r| ==> r[i] == roomTypes[i].id
  {
    if |roomTypes| == 0 then [] else [roomTypes[0].id] + Ids(roomTypes[1..])
  }

  /** Every listed room type moved to `hotelId`. */
  function MoveListed(roomTypes: seq<RoomType>, ids: seq<int>, hotelId: int): (r: seq<RoomType>)
    ensures |r| == |roomTypes|
    ensures forall i :: 0 <= i < |roomTypes| ==>
      r[i] == if roomTypes[i].id in ids then roomTypes[i].(hotelId := hotelId) else roomTypes[i]
  {
    seq(|roomTypes|, i requires 0 <= i < |roomTypes| =>
      if roomTypes[i].id in ids then roomTypes[i].(hotelId := hotelId) else roomTypes[i])
  }

  /** `AssignRoomTypesToHotel`: the id-list check, the hotel check and the
      nothing-found check, in that order, then every listed room type that
      exists is moved to the hotel. `ids` is `None` for a missing list. */
  function AssignRoomTypesToHotel(hotels: seq<Hotel>, roomTypes: seq<RoomType>, hotelId: int, ids: Option<seq<int>>)
    : (r: (seq<RoomType>, Response<Assignment>))
    ensures (ids.None? || |ids.value| == 0) ==> r == (roomTypes, BadRequest(NoIdsMessage))
    ensures ids.Some? && |ids.value| > 0 && HotelById(hotels, hotelId).None? ==>
      r == (roomTypes, NotFound(HotelNotFoundMessage(hotelId)))
    ensures ids.Some? && |ids.value| > 0 && HotelById(hotels, hotelId).Some?
            && (forall t :: t in roomTypes ==> t.id !in ids.value) ==>
      r == (roomTypes, NotFound(NoneFoundMessage))
    ensures r.1.Ok? <==>
      ids.Some? && |ids.value| > 0 && HotelById(hotels, hotelId).Some?
      && exists t :: t in roomTypes && t.id in ids.value
    ensures !r.1.Ok? ==> r.0 == roomTypes
    ensures r.1.Ok? ==>
      && ids.Some? && HotelById(hotels, hotelId).Some?
      && r.1.body.message == AssignedMessage && r.1.body.hotelId == hotelId
      && r.1.body.assignedIds == Ids(Listed(roomTypes, ids.value))
      && |r.0| == |roomTypes|
      && forall i :: 0 <= i < |roomTypes| ==>
           r.0[i] == if roomTypes[i].id in ids.value then roomTypes[i].(hotelId := hotelId) else roomTypes[i]
  {
    if ids.None? || |ids.value| == 0 then (roomTypes, BadRequest(NoIdsMessage))
    else if HotelById(hotels, hotelId).None? then (roomTypes, NotFound(HotelNotFoundMessage(hotelId)))
    else
      var found := Listed(roomTypes, ids.value);
      if |found| == 0 then
        (roomTypes, NotFound(NoneFoundMessage))
      else
        assert found[0] in found;
        (MoveListed(roomTypes, ids.value, hotelId), Ok(Assignment(AssignedMessage, hotelId, Ids(found))))
  }

  /** The reported ids are exactly the listed ids that exist. */
  lemma AssignedIdsAreTheFoundOnes(hotels: seq<Hotel>, roomTypes: seq<RoomType>, hotelId: int, ids: seq<int>)
    ensures var r := AssignRoomTypesToHotel(hotels, roomTypes, hotelId, Some(ids));
      r.1.Ok? ==> forall x :: x in r.1.body.assignedIds <==> x in ids && exists t :: t in roomTypes && t.id == x
  {
    IdsOfListed(roomTypes, ids);
  }

  lemma IdsOfListed(roomTypes: seq<RoomType>, ids: seq<int>)
    ensures forall x :: x in Ids(Listed(roomTypes, ids)) <==> x in ids && exists t :: t in roomTypes && t.id == x
  {
    var found := Listed(roomTypes, ids);
    forall x ensures x in Ids(found) <==> x in ids && exists t :: t in roomTypes && t.id == x {
      if x in Ids(found) {
        var i :| 0 <= i < |found| && Ids(found)[i] == x;
        assert found[i] in found;
      }
      if x in ids && exists t :: t in roomTypes && t.id == x {
        var t :| t in roomTypes && t.id == x;
        assert t in found;
        var i :| 0 <= i < |found| && found[i] == t;
        assert Ids(found)[i] == x;
      }
    }
  }

  /** After a successful assignment every moved room type is listed under
      the target hotel. */
  lemma AssignedRoomTypesListedUnderHotel(hotels: seq<Hotel>, roomTypes: seq<RoomType>, hotelId: int, ids: seq<int>)
    ensures var r := AssignRoomTypesToHotel(hotels, roomTypes, hotelId, Some(ids));
      r.1.Ok? ==> forall t :: t in roomTypes && t.id in ids ==> t.(hotelId := hotelId) in ByHotel(r.0, hotelId)
  {
    var r := AssignRoomTypesToHotel(hotels, roomTypes, hotelId, Some(ids));
    if r.1.Ok? {
      forall t | t in roomTypes && t.id in ids
        ensures t.(hotelId := hotelId) in ByHotel(r.0, hotelId)
      {
        var i :| 0 <= i < |roomTypes| && roomTypes[i] == t;
        assert r.0[i] == t.(hotelId := hotelId);
      }
    }
  }

  /** Repeating a successful assignment changes nothing more. */
  lemma AssignIdempotent(hotels: seq<Hotel>, roomTypes: seq<RoomType>, hotelId: int, ids: seq<int>)
    ensures var once := AssignRoomTypesToHotel(hotels, roomTypes, hotelId, Some(ids));
      once.1.Ok? ==> AssignRoomTypesToHotel(hotels, once.0, hotelId, Some(ids)).0 == once.0
  {
    MoveListedIdempotent(roomTypes, ids, hotelId);
  }

  lemma MoveListedIdempotent(roomTypes: seq<RoomType>, ids: seq<int>, hotelId: int)
    ensures var moved := MoveListed(roomTypes, ids, hotelId);
      MoveListed(moved, ids, hotelId) == moved
  {
    var moved := MoveListed(roomTypes, ids, hotelId);
    assert forall i :: 0 <= i < |moved| ==> MoveListed(moved, ids, hotelId)[i] == moved[i];
  }

  /** `UpdateRoomType`: name and base price are overwritten; the hotel and
      every other room type stay as they were. */
  function UpdateRoomType(roomTypes: seq<RoomType>, id: int, name: string, basePrice: int)
    : (r: (seq<RoomType>, Response<RoomType>))
    ensures r.1.NotFound? <==> forall t :: t in roomTypes ==> t.id != id
    ensures r.1.NotFound? ==> r.0 == roomTypes && r.1.message == RoomTypeNotFoundMessage(id)
    ensures !r.1.BadRequest?
    ensures r.1.Ok? ==>
      && r.1.body.id == id && r.1.body.name == name && r.1.body.basePrice == basePrice
      && exists i :: 0 <= i < |roomTypes| && roomTypes[i].id == id
           && r.1.body.hotelId == roomTypes[i].hotelId
           && r.0 == roomTypes[i := r.1.body]
  {
    match FirstIndex(roomTypes, (t: RoomType) => t.id == id)
    case None => (roomTypes, NotFound(RoomTypeNotFoundMessage(id)))
    case Some(i) =>
      var updated := roomTypes[i].(name := name, basePrice := basePrice);
      (roomTypes[i := updated], Ok(updated))
  }

  /** A name/price update never moves a room type between hotels: each
      hotel lists the same number of room types before and after. */
  lemma UpdateKeepsHotelListings(roomTypes: seq<RoomType>, id: int, name: string, basePrice: int, hotelId: int)
    ensures |ByHotel(UpdateRoomType(roomTypes, id, name, basePrice).0, hotelId)| == |ByHotel(roomTypes, hotelId)|
  {
    var after := UpdateRoomType(roomTypes, id, name, basePrice).0;
    assert |after| == |roomTypes|;
    assert forall i :: 0 <= i < |after| ==> after[i].hotelId == roomTypes[i].hotelId;
    SameHotelsSameCount(roomTypes, after, hotelId);
  }

  lemma {:induction false} SameHotelsSameCount(a: seq<RoomType>, b: seq<RoomType>, hotelId: int)
    requires |a| == |b| && forall i :: 0 <= i < |a| ==> a[i].hotelId == b[i].hotelId
    ensures |ByHotel(a, hotelId)| == |ByHotel(b, hotelId)|
  {
    if |a| > 0 {
      SameHotelsSameCount(a[1..], b[1..], hotelId);
    }
  }
}
