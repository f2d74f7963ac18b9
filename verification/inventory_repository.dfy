/** `InventoryRepository`: the queries and the single write the services
    run against the ledger. Every operation is a pure function of the
    ledger; `ReserveRooms` returns the ledger as it is after the save. */
module InventoryRepository {
  import opened Common
  import opened Inventory

  /** The filter of the range query: the pair matches and the day lies in
      `[start, end]`, both ends included. */
  predicate InRange(row: Row, hotelId: int, roomTypeId: int, start: int, end: int) {
    row.hotelId == hotelId && row.roomTypeId == roomTypeId && start <= row.day <= end
  }

  ghost predicate SortedByDay(rows: seq<Row>) {
    forall i, j :: 0 <= i < j < |rows| ==> rows[i].day <= rows[j].day
  }

  ghost predicate StrictlySortedByDay(rows: seq<Row>) {
    forall i, j :: 0 <= i < j < |rows| ==> rows[i].day < rows[j].day
  }

  /** The rows stored under one key, in ledger order. */
  function RowsOn(ledger: Ledger, key: DayKey): (r: seq<Row>)
    ensures forall row :: row in r <==> row in ledger && row.Key() == key
    ensures |r| <= |ledger|
  {
    if |ledger| == 0 then []
    else (if ledger[0].Key() == key then [ledger[0]] else []) + RowsOn(ledger[1..], key)
  }

  /** A key no row is stored under holds no rows. */
  lemma {:induction false} RowsOnAbsent(ledger: Ledger, key: DayKey)
    requires forall row :: row in ledger ==> row.Key() != key
    ensures RowsOn(ledger, key) == []
  {
    if |ledger| > 0 {
      assert ledger[0] in ledger;
      RowsOnAbsent(ledger[1..], key);
    }
  }

  /** Under the unique index a key holds at most one row. */
  lemma {:induction false} RowsOnUnique(ledger: Ledger, key: DayKey)
    ensures UniqueKeys(ledger) ==> |RowsOn(ledger, key)| <= 1
  {
    if |ledger| > 0 && UniqueKeys(ledger) {
      assert UniqueKeys(ledger[1..]) by {
        forall i, j | 0 <= i < j < |ledger[1..]|
          ensures ledger[1..][i].Key() != ledger[1..][j].Key()
        {
          assert ledger[1..][i] == ledger[i + 1] && ledger[1..][j] == ledger[j + 1];
        }
      }
      RowsOnUnique(ledger[1..], key);
      if ledger[0].Key() == key {
        forall row | row in ledger[1..]
          ensures row.Key() != key
        {
          var j :| 0 <= j < |ledger[1..]| && ledger[1..][j] == row;
          assert ledger[j + 1] == row;
        }
        RowsOnAbsent(ledger[1..], key);
      }
    }
  }

  /** `GetByHotelRoomAndDateAsync`: the first row stored under the key, if any. */
  function GetByHotelRoomAndDate(ledger: Ledger, hotelId: int, roomTypeId: int, day: int): (r: Option<Row>)
    ensures r.Some? ==> r.value in ledger && r.value.Key() == DayKey(hotelId, roomTypeId, day)
    ensures r.None? <==> forall row :: row in ledger ==> row.Key() != DayKey(hotelId, roomTypeId, day)
  {
    var rows := RowsOn(ledger, DayKey(hotelId, roomTypeId, day));
    if |rows| == 0 then None
    else
      assert rows[0] in rows;
      Some(rows[0])
  }

  /** Under the unique index the lookup finds the one row stored under the key. */
  lemma LookupFindsStoredRow(ledger: Ledger, row: Row)
    requires UniqueKeys(ledger) && row in ledger
    ensures GetByHotelRoomAndDate(ledger, row.hotelId, row.roomTypeId, row.day) == Some(row)
  {
    var rows := RowsOn(ledger, row.Key());
    RowsOnUnique(ledger, row.Key());
    assert row in rows;
  }

  /** The rows that pass the range filter, in ledger order. */
  function Matching(ledger: Ledger, hotelId: int, roomTypeId: int, start: int, end: int): (r: seq<Row>)
    ensures forall row :: row in r <==> row in ledger && InRange(row, hotelId, roomTypeId, start, end)
    ensures start > end ==> r == []
  {
    if |ledger| == 0 then []
    else
      (if InRange(ledger[0], hotelId, roomTypeId, start, end) then [ledger[0]] else [])
      + Matching(ledger[1..], hotelId, roomTypeId, start, end)
  }

  /** The range rows, walked day by day from `day` to `end`: each day's
      rows in ledger order, days ascending. This is what a stable sort by
      day of the filtered rows produces. */
  function RangeFrom(ledger: Ledger, hotelId: int, roomTypeId: int, day: int, end: int): (r: seq<Row>)
    ensures forall row :: row in r ==> row in ledger && InRange(row, hotelId, roomTypeId, day, end)
    ensures SortedByDay(r)
    ensures UniqueKeys(ledger) ==> StrictlySortedByDay(r)
    decreases end - day + 1
  {
    if day > end then []
    else
      var here := RowsOn(ledger, DayKey(hotelId, roomTypeId, day));
      var later := RangeFrom(ledger, hotelId, roomTypeId, day + 1, end);
      RowsOnUnique(ledger, DayKey(hotelId, roomTypeId, day));
      DayGroupThenLater(here, later, day);
      here + later
  }

  /** A group of rows on one day followed by sorted rows on later days is sorted. */
  lemma DayGroupThenLater(here: seq<Row>, later: seq<Row>, day: int)
    requires forall row :: row in here ==> row.day == day
    requires forall row :: row in later ==> row.day > day
    requires SortedByDay(later)
    ensures SortedByDay(here + later)
    ensures |here| <= 1 && StrictlySortedByDay(later) ==> StrictlySortedByDay(here + later)
  {
    var all := here + later;
    forall i, j | 0 <= i < j < |all|
      ensures all[i].day <= all[j].day
      ensures |here| <= 1 && StrictlySortedByDay(later) ==> all[i].day < all[j].day
    {
      if j < |here| {
        assert all[i] == here[i] && all[j] == here[j];
        assert all[i] in here && all[j] in here;
      } else if i < |here| {
        assert all[i] == here[i] && all[i] in here;
        assert all[j] == later[j - |here|] && all[j] in later;
      } else {
        assert all[i] == later[i - |here|] && all[j] == later[j - |here|];
      }
    }
  }

  /** Splitting the filtered rows at their first day. */
  lemma {:induction false} MatchingSplit(ledger: Ledger, hotelId: int, roomTypeId: int, day: int, end: int)
    requires day <= end
    ensures multiset(Matching(ledger, hotelId, roomTypeId, day, end))
         == multiset(RowsOn(ledger, DayKey(hotelId, roomTypeId, day)))
          + multiset(Matching(ledger, hotelId, roomTypeId, day + 1, end))
  {
    if |ledger| > 0 {
      MatchingSplit(ledger[1..], hotelId, roomTypeId, day, end);
    }
  }

  /** The day walk holds exactly the filtered rows, each as often as stored. */
  lemma {:induction false} RangeFromIsMatching(ledger: Ledger, hotelId: int, roomTypeId: int, day: int, end: int)
    ensures multiset(RangeFrom(ledger, hotelId, roomTypeId, day, end))
         == multiset(Matching(ledger, hotelId, roomTypeId, day, end))
    decreases end - day + 1
  {
    if day <= end {
      RangeFromIsMatching(ledger, hotelId, roomTypeId, day + 1, end);
      MatchingSplit(ledger, hotelId, roomTypeId, day, end);
    }
  }

  /** `GetInventoryRangeAsync`: the rows of the pair with `start <= day <= end`,
      ordered by day. */
  function GetInventoryRange(ledger: Ledger, hotelId: int, roomTypeId: int, start: int, end: int): (r: seq<Row>)
    ensures multiset(r) == multiset(Matching(ledger, hotelId, roomTypeId, start, end))
    ensures forall row :: row in r <==> row in ledger && InRange(row, hotelId, roomTypeId, start, end)
    ensures SortedByDay(r)
    ensures UniqueKeys(ledger) ==> StrictlySortedByDay(r)
  {
    RangeFromIsMatching(ledger, hotelId, roomTypeId, start, end);
    var r := RangeFrom(ledger, hotelId, roomTypeId, start, end);
    assert forall row :: row in Matching(ledger, hotelId, roomTypeId, start, end) ==> row in multiset(r);
    r
  }

  /** The range is the day walk from its first day. */
  lemma RangeIsWalk(ledger: Ledger, hotelId: int, roomTypeId: int, start: int, end: int)
    ensures GetInventoryRange(ledger, hotelId, roomTypeId, start, end) == RangeFrom(ledger, hotelId, roomTypeId, start, end)
  {
  }

  /** The nights of a stay: whole days from check-in to checkout, checkout excluded. */
  function Nights(start: int, end: int): int {
    end - start
  }

  /** LINQ `Take`: the first `count` elements, none for a count below one. */
  function Take(rows: seq<Row>, count: int): (r: seq<Row>)
    ensures |r| == if count <= 0 then 0 else if count < |rows| then count else |rows|
    ensures r == rows[..|r|]
  {
    if count <= 0 then [] else if count < |rows| then rows[..count] else rows
  }

  /** The rows both the check and the reservation act on: the first
      `Nights(start, end)` rows of the range, by position. */
  function StayRows(ledger: Ledger, hotelId: int, roomTypeId: int, start: int, end: int): seq<Row> {
    Take(GetInventoryRange(ledger, hotelId, roomTypeId, start, end), Nights(start, end))
  }

  /** The `foreach` of the check: every row has room, stopping at the first that does not. */
  function AllHaveRoom(rows: seq<Row>, rooms: int): (r: bool)
    ensures r <==> forall row :: row in rows ==> row.HasRoomFor(rooms)
  {
    if |rows| == 0 then true
    else if !rows[0].HasRoomFor(rooms) then false
    else AllHaveRoom(rows[1..], rooms)
  }

  /** `CheckAvailabilityAsync`: enough range rows for the nights, and room on
      each of the first `Nights` rows. Positional, not by date. */
  function CheckAvailability(ledger: Ledger, hotelId: int, roomTypeId: int, start: int, end: int, rooms: int): (r: bool)
    ensures var range := GetInventoryRange(ledger, hotelId, roomTypeId, start, end);
      r <==> |range| >= Nights(start, end)
             && forall i :: 0 <= i < Nights(start, end) ==> range[i].HasRoomFor(rooms)
    ensures r ==> forall row :: row in StayRows(ledger, hotelId, roomTypeId, start, end) ==> row.HasRoomFor(rooms)
    ensures start >= end ==> r
  {
    var range := GetInventoryRange(ledger, hotelId, roomTypeId, start, end);
    var nights := Nights(start, end);
    if |range| < nights then false
    else
      var stay := Take(range, nights);
      assert forall i :: 0 <= i < nights ==> range[i] == stay[i] && stay[i] in stay;
      AllHaveRoom(stay, rooms)
  }

  /** `ReserveRoomsAsync`: add `rooms` to `reserved` on each stay row, matched
      by its primary key as the tracked entities are; no bound is checked. */
  function ReserveRooms(ledger: Ledger, hotelId: int, roomTypeId: int, start: int, end: int, rooms: int): (r: Ledger)
    ensures |r| == |ledger|
    ensures forall i :: 0 <= i < |ledger| ==> r[i] == ledger[i] || r[i] == ledger[i].Reserve(rooms)
    ensures UniqueIds(ledger) ==>
      forall i :: 0 <= i < |ledger| ==>
        r[i] == if ledger[i] in StayRows(ledger, hotelId, roomTypeId, start, end)
                then ledger[i].Reserve(rooms) else ledger[i]
  {
    var stay := StayRows(ledger, hotelId, roomTypeId, start, end);
    var ids := set row | row in stay :: row.id;
    var r := seq(|ledger|, i requires 0 <= i < |ledger| =>
      if ledger[i].id in ids then ledger[i].Reserve(rooms) else ledger[i]);
    assert UniqueIds(ledger) ==> forall i :: 0 <= i < |ledger| ==> (ledger[i].id in ids <==> ledger[i] in stay) by {
      if UniqueIds(ledger) {
        forall i | 0 <= i < |ledger| && ledger[i].id in ids
          ensures ledger[i] in stay
        {
          var row :| row in stay && row.id == ledger[i].id;
          assert row in GetInventoryRange(ledger, hotelId, roomTypeId, start, end);
          var j :| 0 <= j < |ledger| && ledger[j] == row;
          assert i == j;
        }
      }
    }
    r
  }

  /** Keys, ids and totals survive a reservation, so do the unique index
      and the primary key. */
  lemma ReserveRoomsKeepsKeys(ledger: Ledger, hotelId: int, roomTypeId: int, start: int, end: int, rooms: int)
    ensures var r := ReserveRooms(ledger, hotelId, roomTypeId, start, end, rooms);
      forall i :: 0 <= i < |ledger| ==> r[i].id == ledger[i].id && r[i].Key() == ledger[i].Key() && r[i].total == ledger[i].total
    ensures UniqueKeys(ledger) ==> UniqueKeys(ReserveRooms(ledger, hotelId, roomTypeId, start, end, rooms))
    ensures UniqueIds(ledger) ==> UniqueIds(ReserveRooms(ledger, hotelId, roomTypeId, start, end, rooms))
  {
  }

  /** The main obligation: a reservation preceded by a successful check with
      the same arguments never pushes `reserved` above `total`; with a
      non-negative room count the whole `0 <= reserved <= total` invariant
      is kept. */
  lemma ReserveAfterCheckKeepsConsistency(ledger: Ledger, hotelId: int, roomTypeId: int, start: int, end: int, rooms: int)
    requires UniqueIds(ledger) && AllConsistent(ledger) && IsInt32(rooms)
    requires CheckAvailability(ledger, hotelId, roomTypeId, start, end, rooms)
    ensures var r := ReserveRooms(ledger, hotelId, roomTypeId, start, end, rooms);
      forall i :: 0 <= i < |r| ==> r[i].reserved <= r[i].total
    ensures rooms >= 0 ==> AllConsistent(ReserveRooms(ledger, hotelId, roomTypeId, start, end, rooms))
  {
    var stay := StayRows(ledger, hotelId, roomTypeId, start, end);
    var r := ReserveRooms(ledger, hotelId, roomTypeId, start, end, rooms);
    forall i | 0 <= i < |r|
      ensures r[i].reserved <= r[i].total
      ensures rooms >= 0 ==> r[i].Consistent()
    {
      assert ledger[i].Consistent();
      if ledger[i] in stay {
        assert ledger[i].HasRoomFor(rooms);
        assert r[i] == ledger[i].Reserve(rooms);
      } else {
        assert r[i] == ledger[i];
      }
    }
  }

  /** Every night of the stay `[start, end)` has a ledger row. */
  ghost predicate NightsConfigured(ledger: Ledger, hotelId: int, roomTypeId: int, start: int, end: int) {
    forall day :: start <= day < end ==> GetByHotelRoomAndDate(ledger, hotelId, roomTypeId, day).Some?
  }

  /** The date-based reading of availability: each night of the stay has a
      row, and that row has room for the request. */
  ghost predicate RoomEveryNight(ledger: Ledger, hotelId: int, roomTypeId: int, start: int, end: int, rooms: int) {
    forall day :: start <= day < end ==>
      var row := GetByHotelRoomAndDate(ledger, hotelId, roomTypeId, day);
      row.Some? && row.value.HasRoomFor(rooms)
  }

  /** When every night from `day` on has a row, the day walk starts with
      one row per night, in date order. */
  lemma {:induction false} NightRowsLeadTheRange(ledger: Ledger, hotelId: int, roomTypeId: int, day: int, end: int)
    requires UniqueKeys(ledger) && day <= end
    requires NightsConfigured(ledger, hotelId, roomTypeId, day, end)
    ensures |RangeFrom(ledger, hotelId, roomTypeId, day, end)| >= end - day
    ensures forall i :: 0 <= i < end - day ==> RangeFrom(ledger, hotelId, roomTypeId, day, end)[i].day == day + i
    decreases end - day
  {
    if day < end {
      NightRowsLeadTheRange(ledger, hotelId, roomTypeId, day + 1, end);
      assert GetByHotelRoomAndDate(ledger, hotelId, roomTypeId, day).Some?;
      var row := ConfiguredDayHasOneRow(ledger, hotelId, roomTypeId, day);
      var later := RangeFrom(ledger, hotelId, roomTypeId, day + 1, end);
      RangeFromStep(ledger, hotelId, roomTypeId, day, end, [row], later);
      var all := RangeFrom(ledger, hotelId, roomTypeId, day, end);
      forall i | 0 <= i < end - day
        ensures all[i].day == day + i
      {
        if i > 0 {
          assert all[i] == later[i - 1];
        }
      }
    }
  }

  /** Under the unique index a configured day holds exactly its one row. */
  lemma ConfiguredDayHasOneRow(ledger: Ledger, hotelId: int, roomTypeId: int, day: int) returns (row: Row)
    requires UniqueKeys(ledger) && GetByHotelRoomAndDate(ledger, hotelId, roomTypeId, day).Some?
    ensures RowsOn(ledger, DayKey(hotelId, roomTypeId, day)) == [row] && row.day == day
  {
    row := GetByHotelRoomAndDate(ledger, hotelId, roomTypeId, day).value;
    var rows := RowsOn(ledger, DayKey(hotelId, roomTypeId, day));
    RowsOnUnique(ledger, DayKey(hotelId, roomTypeId, day));
    assert row in rows;
    assert rows == [rows[0]];
  }

  /** The same, read through the lookup: position `i` of the range holds the
      row stored for night `start + i`. */
  lemma RangeHoldsNightRows(ledger: Ledger, hotelId: int, roomTypeId: int, start: int, end: int)
    requires UniqueKeys(ledger) && start <= end
    requires NightsConfigured(ledger, hotelId, roomTypeId, start, end)
    ensures var range := GetInventoryRange(ledger, hotelId, roomTypeId, start, end);
      && |range| >= Nights(start, end)
      && forall i :: 0 <= i < Nights(start, end) ==>
           Some(range[i]) == GetByHotelRoomAndDate(ledger, hotelId, roomTypeId, range[i].day)
           && range[i].day == start + i
  {
    NightRowsLeadTheRange(ledger, hotelId, roomTypeId, start, end);
    var range := GetInventoryRange(ledger, hotelId, roomTypeId, start, end);
    forall i | 0 <= i < Nights(start, end)
      ensures Some(range[i]) == GetByHotelRoomAndDate(ledger, hotelId, roomTypeId, range[i].day)
    {
      assert range[i] in range;
      LookupFindsStoredRow(ledger, range[i]);
    }
  }

  /** With every night configured, the positional check and the date-based
      reading agree, in both directions. */
  lemma CheckMatchesByNight(ledger: Ledger, hotelId: int, roomTypeId: int, start: int, end: int, rooms: int)
    requires UniqueKeys(ledger) && NightsConfigured(ledger, hotelId, roomTypeId, start, end)
    ensures CheckAvailability(ledger, hotelId, roomTypeId, start, end, rooms)
        <==> RoomEveryNight(ledger, hotelId, roomTypeId, start, end, rooms)
  {
    if start < end {
      if CheckAvailability(ledger, hotelId, roomTypeId, start, end, rooms) {
        CheckedNightsHaveRoom(ledger, hotelId, roomTypeId, start, end, rooms);
      }
      if RoomEveryNight(ledger, hotelId, roomTypeId, start, end, rooms) {
        RoomedNightsPassCheck(ledger, hotelId, roomTypeId, start, end, rooms);
      }
    }
  }

  lemma CheckedNightsHaveRoom(ledger: Ledger, hotelId: int, roomTypeId: int, start: int, end: int, rooms: int)
    requires UniqueKeys(ledger) && NightsConfigured(ledger, hotelId, roomTypeId, start, end) && start < end
    requires CheckAvailability(ledger, hotelId, roomTypeId, start, end, rooms)
    ensures RoomEveryNight(ledger, hotelId, roomTypeId, start, end, rooms)
  {
    RangeHoldsNightRows(ledger, hotelId, roomTypeId, start, end);
    var range := GetInventoryRange(ledger, hotelId, roomTypeId, start, end);
    forall day | start <= day < end
      ensures GetByHotelRoomAndDate(ledger, hotelId, roomTypeId, day) == Some(range[day - start])
      ensures range[day - start].HasRoomFor(rooms)
    {
      assert range[day - start].day == day;
    }
  }

  lemma RoomedNightsPassCheck(ledger: Ledger, hotelId: int, roomTypeId: int, start: int, end: int, rooms: int)
    requires UniqueKeys(ledger) && NightsConfigured(ledger, hotelId, roomTypeId, start, end) && start < end
    requires RoomEveryNight(ledger, hotelId, roomTypeId, start, end, rooms)
    ensures CheckAvailability(ledger, hotelId, roomTypeId, start, end, rooms)
  {
    NightRowsLeadTheRange(ledger, hotelId, roomTypeId, start, end);
    var range := GetInventoryRange(ledger, hotelId, roomTypeId, start, end);
    forall i | 0 <= i < Nights(start, end)
      ensures range[i].HasRoomFor(rooms)
    {
      assert range[i] == GetByHotelRoomAndDate(ledger, hotelId, roomTypeId, start + i).value;
    }
  }

  /** Days in a strictly sorted sequence grow at least one per position. */
  lemma {:induction false} DayGap(rows: seq<Row>, i: int, j: int)
    requires StrictlySortedByDay(rows) && 0 <= i <= j < |rows|
    ensures rows[j].day - rows[i].day >= j - i
    decreases j - i
  {
    if i < j {
      DayGap(rows, i, j - 1);
    }
  }

  /** The check is positional: when a night has no row, a successful check
      has counted the checkout-day row in its place, so the last row it
      examined (and the last row a reservation raises) lies on the checkout day. */
  lemma CheckoutRowFillsMissingNight(ledger: Ledger, hotelId: int, roomTypeId: int, start: int, end: int, rooms: int)
    requires UniqueKeys(ledger) && start < end
    requires CheckAvailability(ledger, hotelId, roomTypeId, start, end, rooms)
    ensures var stay := StayRows(ledger, hotelId, roomTypeId, start, end);
      && |stay| == Nights(start, end)
      && (NightsConfigured(ledger, hotelId, roomTypeId, start, end) || stay[|stay| - 1].day == end)
  {
    LongRangeEndsOnCheckout(ledger, hotelId, roomTypeId, start, end);
  }

  /** A range with at least one row per night either has a row for every
      night or reaches the checkout day by its last stay row. */
  lemma LongRangeEndsOnCheckout(ledger: Ledger, hotelId: int, roomTypeId: int, start: int, end: int)
    requires UniqueKeys(ledger) && start < end
    requires |GetInventoryRange(ledger, hotelId, roomTypeId, start, end)| >= Nights(start, end)
    ensures var stay := StayRows(ledger, hotelId, roomTypeId, start, end);
      && |stay| == Nights(start, end)
      && (NightsConfigured(ledger, hotelId, roomTypeId, start, end) || stay[|stay| - 1].day == end)
  {
    var range := GetInventoryRange(ledger, hotelId, roomTypeId, start, end);
    var n := Nights(start, end);
    assert range[n - 1] in range && range[0] in range;
    if range[n - 1].day < end {
      forall day | start <= day < end
        ensures GetByHotelRoomAndDate(ledger, hotelId, roomTypeId, day).Some?
      {
        var k := day - start;
        DayGap(range, 0, k);
        DayGap(range, k, n - 1);
        assert range[k] in range;
        assert range[k].Key() == DayKey(hotelId, roomTypeId, day);
      }
    }
  }

  /** Any two-night stay whose middle night has no row passes the check when
      the first night and the checkout day have room: the checkout-day row
      stands in for the missing night, so it is among the rows a following
      reservation raises. */
  lemma CheckoutRowStandsIn(first: Row, checkout: Row, rooms: int)
    requires checkout.Key() == DayKey(first.hotelId, first.roomTypeId, first.day + 2)
    requires first.HasRoomFor(rooms) && checkout.HasRoomFor(rooms)
    ensures var ledger := [first, checkout];
      && CheckAvailability(ledger, first.hotelId, first.roomTypeId, first.day, first.day + 2, rooms)
      && !NightsConfigured(ledger, first.hotelId, first.roomTypeId, first.day, first.day + 2)
      && StayRows(ledger, first.hotelId, first.roomTypeId, first.day, first.day + 2) == ledger
  {
    var ledger := [first, checkout];
    var h, rt, d := first.hotelId, first.roomTypeId, first.day;
    GappedRange(ledger, h, rt, d);
    RangeIsWalk(ledger, h, rt, d, d + 2);
    GappedStay(ledger, h, rt, d, rooms);
    RowsOnPair(first, checkout, DayKey(h, rt, d + 1));
    assert GetByHotelRoomAndDate(ledger, h, rt, d + 1).None?;
  }

  /** A two-night range of two rows with room is the stay and passes the check. */
  lemma GappedStay(ledger: Ledger, hotelId: int, roomTypeId: int, day: int, rooms: int)
    requires GetInventoryRange(ledger, hotelId, roomTypeId, day, day + 2) == ledger
    requires |ledger| == 2 && ledger[0].HasRoomFor(rooms) && ledger[1].HasRoomFor(rooms)
    ensures StayRows(ledger, hotelId, roomTypeId, day, day + 2) == ledger
    ensures CheckAvailability(ledger, hotelId, roomTypeId, day, day + 2, rooms)
  {
  }

  /** The day walk of a two-row ledger whose rows are two days apart. */
  lemma GappedRange(ledger: Ledger, hotelId: int, roomTypeId: int, day: int)
    requires |ledger| == 2
    requires ledger[0].Key() == DayKey(hotelId, roomTypeId, day)
    requires ledger[1].Key() == DayKey(hotelId, roomTypeId, day + 2)
    ensures RangeFrom(ledger, hotelId, roomTypeId, day, day + 2) == ledger
  {
    GappedTail(ledger, hotelId, roomTypeId, day);
    RowsOnPair(ledger[0], ledger[1], DayKey(hotelId, roomTypeId, day));
    assert ledger == [ledger[0], ledger[1]];
    RangeFromStep(ledger, hotelId, roomTypeId, day, day + 2, [ledger[0]], [ledger[1]]);
  }

  /** From the missing night on, the walk meets only the checkout-day row. */
  lemma GappedTail(ledger: Ledger, hotelId: int, roomTypeId: int, day: int)
    requires |ledger| == 2
    requires ledger[0].Key() == DayKey(hotelId, roomTypeId, day)
    requires ledger[1].Key() == DayKey(hotelId, roomTypeId, day + 2)
    ensures RangeFrom(ledger, hotelId, roomTypeId, day + 1, day + 2) == [ledger[1]]
  {
    assert ledger == [ledger[0], ledger[1]];
    RowsOnPair(ledger[0], ledger[1], DayKey(hotelId, roomTypeId, day + 1));
    RowsOnPair(ledger[0], ledger[1], DayKey(hotelId, roomTypeId, day + 2));
    assert RangeFrom(ledger, hotelId, roomTypeId, day + 3, day + 2) == [];
    RangeFromStep(ledger, hotelId, roomTypeId, day + 2, day + 2, [ledger[1]], []);
    RangeFromStep(ledger, hotelId, roomTypeId, day + 1, day + 2, [], [ledger[1]]);
  }

  /** One step of the day walk: the day's rows, then the walk from the next day. */
  lemma RangeFromStep(ledger: Ledger, hotelId: int, roomTypeId: int, day: int, end: int, here: seq<Row>, later: seq<Row>)
    requires day <= end
    requires RowsOn(ledger, DayKey(hotelId, roomTypeId, day)) == here
    requires RangeFrom(ledger, hotelId, roomTypeId, day + 1, end) == later
    ensures RangeFrom(ledger, hotelId, roomTypeId, day, end) == here + later
  {
  }

  /** The rows of a two-row ledger under one key. */
  lemma RowsOnPair(a: Row, b: Row, key: DayKey)
    ensures RowsOn([a, b], key) == (if a.Key() == key then [a] else []) + (if b.Key() == key then [b] else [])
  {
    assert [a, b][1..] == [b];
    assert [b][1..] == [];
  }

  /** With every night configured a reservation raises exactly the rows of
      the stay's nights, and no other row, the checkout-day row included. */
  lemma ReserveMatchesByNight(ledger: Ledger, hotelId: int, roomTypeId: int, start: int, end: int, rooms: int)
    requires UniqueKeys(ledger) && UniqueIds(ledger)
    requires NightsConfigured(ledger, hotelId, roomTypeId, start, end)
    ensures var r := ReserveRooms(ledger, hotelId, roomTypeId, start, end, rooms);
      forall i :: 0 <= i < |ledger| ==>
        r[i] == if ledger[i].hotelId == hotelId && ledger[i].roomTypeId == roomTypeId && start <= ledger[i].day < end
                then ledger[i].Reserve(rooms) else ledger[i]
  {
    StayIsTheNightRows(ledger, hotelId, roomTypeId, start, end);
  }

  /** With every night configured the stay holds exactly the ledger's rows
      of the pair on the nights of the stay. */
  lemma StayIsTheNightRows(ledger: Ledger, hotelId: int, roomTypeId: int, start: int, end: int)
    requires UniqueKeys(ledger)
    requires NightsConfigured(ledger, hotelId, roomTypeId, start, end)
    ensures forall row :: row in ledger ==>
      (row in StayRows(ledger, hotelId, roomTypeId, start, end)
       <==> row.hotelId == hotelId && row.roomTypeId == roomTypeId && start <= row.day < end)
  {
    var stay := StayRows(ledger, hotelId, roomTypeId, start, end);
    if start < end {
      RangeHoldsNightRows(ledger, hotelId, roomTypeId, start, end);
      var range := GetInventoryRange(ledger, hotelId, roomTypeId, start, end);
      assert stay == range[..Nights(start, end)];
      forall row | row in ledger
        ensures row in stay <==> row.hotelId == hotelId && row.roomTypeId == roomTypeId && start <= row.day < end
      {
        if row in stay {
          var k :| 0 <= k < |stay| && stay[k] == row;
          assert range[k] == row && range[k] in range;
        }
        if row.hotelId == hotelId && row.roomTypeId == roomTypeId && start <= row.day < end {
          LookupFindsStoredRow(ledger, row);
          var k := row.day - start;
          assert range[k].day == row.day;
          assert stay[k] == range[k];
        }
      }
    }
  }

  /** Without the caller's guard a negative count drives `reserved` below
      zero: the repository itself checks nothing. */
  lemma NegativeReservationUnderflows()
    ensures var ledger := [Row(1, 1, 1, 10, 5, 0)];
      && CheckAvailability(ledger, 1, 1, 10, 11, -1)
      && ReserveRooms(ledger, 1, 1, 10, 11, -1)[0].reserved == -1
  {
    var ledger := [Row(1, 1, 1, 10, 5, 0)];
    assert RowsOn(ledger, DayKey(1, 1, 10)) == [ledger[0]];
    assert RowsOn(ledger, DayKey(1, 1, 11)) == [];
    assert GetInventoryRange(ledger, 1, 1, 10, 11) == [ledger[0]];
    assert StayRows(ledger, 1, 1, 10, 11) == [ledger[0]];
  }

  /** `CantidadDisponible` is an `int` difference: next to a full `int`
      total, a reserved count of -1 (which a manual update lets through)
      makes it wrap to the most negative `int`, and the check refuses a
      room the counts still hold. */
  lemma WrappedAvailabilityRefuses()
    ensures var ledger := [Row(1, 1, 1, 10, Int32Max, -1)];
      && ledger[0].reserved + 1 <= ledger[0].total
      && ledger[0].Available() == -Int32Max - 1
      && !CheckAvailability(ledger, 1, 1, 10, 11, 1)
  {
    var ledger := [Row(1, 1, 1, 10, Int32Max, -1)];
    assert RowsOn(ledger, DayKey(1, 1, 10)) == [ledger[0]];
    assert RowsOn(ledger, DayKey(1, 1, 11)) == [];
    assert GetInventoryRange(ledger, 1, 1, 10, 11) == [ledger[0]];
  }
}
