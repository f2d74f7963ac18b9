# Altairis inventory ledger and reservations, in Dafny

This project models the core of the Altairis hotel back office: the
per-day **inventory ledger** and the **reservation** flow that reads and
writes it. It also models the catalogue operations and front-end mappers
that sit on that path. Every operation is a pure function over immutable
values. The database is a `Store` or a `Ledger` (`seq<Row>`), and each
write returns the store it leaves behind.

Modules, one per source component:

- `Common`: `Option`, `Result` (a value, or the `InvalidOperationException` message), first-match lookup and fresh ids.
- `Calendar`: a `DateTime` as a tick count (`Moment`), `.Date` as `DayOf`, and `TimeSpan.Days` as `WholeDays`.
- `Text`: ASCII lower-casing, ordinal substring search, decimal formatting and `padStart`.
- `Entities`: `Hotel`, `RoomType`, `Reservation` and their lookups by id.
- `Inventory`: the ledger row, with `CantidadDisponible`, and the three ledger invariants.
  - The unique `(hotel, room type, day)` index.
  - The primary key.
  - `0 <= reserved <= total`, with both counts within `int`.
- `InventoryRepository`: the lookup, the range query, the positional availability check and the reservation write.
- `InventoryService`: the guarded availability request, the single-day create, the manual update and the bulk range create.
- `ReservationService`: the booking validation chain, pricing, the ledger increment, cancellation, status update and `Noches`.
- `HotelSearch`: the hotel search, name ordering, paging with 32-bit offset arithmetic, `PagedResultDto` and the active-hotel list.
- `RoomTypes`: the bulk assignment to a hotel, the name/price update and the per-hotel listing.
- `Display`: the front end's `mapEstadoToStatus`, `mapReservation` and hotel mapping.

## Time of day

The source keeps full timestamps in requests and reservations, and the
code compares them in two different ways:

- **Calendar days.** The repository normalises both ends with `.Date`, so the ledger counts calendar nights.
- **Full timestamps.** The services compare the raw timestamps in their guards, and the price uses `(exit - entry).Days`.

The model keeps the timestamps (`Moment`) so that both readings are there,
and it proves what follows from them:

- A same-day request with the later time as its end passes the date guard and is granted (`SameDayRequestGranted`).
- The "no night" guard of the bulk create is therefore reachable.
- A checkout earlier in the day than the check-in is charged one night fewer than the ledger reserves (`PriceWithEarlierCheckoutTime`, `OvernightStayChargedNothing`).

Three consequences of the code are easy to miss, and the model keeps them:

- **Nights.** Nights are counted twice: by calendar day in the ledger, and by whole elapsed days in `Noches` and the price.
- **Status spelling.** The entity's default status is the Spanish `Confirmada` (`Reservation.cs:11` lists `Confirmada`, `Cancelada`, `Completada`), while the service writes the English `Confirmed` and `Cancelled`.
- **Bulk create.** The bulk create has three guards. The third, "no night", can be reached because the first guard compares full timestamps while the loop counts calendar days.

## Model

| member | source | states |
|---|---|---|
| `Calendar.WholeDaysVersusDates` | backend/Altairis.Application/Services/ReservationService.cs:132 | Whole elapsed days between two moments equal the calendar-day difference when the later time of day is not earlier, and one less otherwise |
| `InventoryRepository.GetByHotelRoomAndDate` | backend/Altairis.Infrastructure/Repositories/InventoryRepository.cs:14-23 | The lookup returns a stored row under the (hotel, room type, day) key, and returns nothing exactly when no row has that key |
| `InventoryRepository.LookupFindsStoredRow` | backend/Altairis.Infrastructure/Data/AltairisDbContext.cs:53 | Under the unique index, looking up a stored row's key returns that very row |
| `InventoryRepository.GetInventoryRange` | backend/Altairis.Infrastructure/Repositories/InventoryRepository.cs:25-42 | The range is a permutation of the ledger rows of the pair whose day lies in `[start, end]` (both ends included), sorted by day, and strictly sorted under the unique index |
| `InventoryRepository.CheckAvailability` | backend/Altairis.Infrastructure/Repositories/InventoryRepository.cs:44-77 | The check holds iff the range has at least `end - start` rows and each of the first `end - start` rows has `CantidadDisponible >= rooms`, that difference computed in 32-bit `int`; a stay of no nights always passes |
| `InventoryRepository.ReserveRooms` | backend/Altairis.Infrastructure/Repositories/InventoryRepository.cs:79-103 | The ledger keeps its length; with unique ids, a row gains `rooms` reserved exactly when it is one of the first `end - start` range rows, and every other row is unchanged |
| `InventoryRepository.ReserveRoomsKeepsKeys` | backend/Altairis.Infrastructure/Repositories/InventoryRepository.cs:96-100 | A reservation changes no id, key or total, so it preserves the unique index and the primary key |
| `InventoryRepository.ReserveAfterCheckKeepsConsistency` | backend/Altairis.Infrastructure/Repositories/InventoryRepository.cs:61-100 | After a successful check with the same `int` room count, the reservation never pushes `reserved` above `total`; with `rooms >= 0`, every row stays consistent |
| `InventoryRepository.CheckMatchesByNight` | backend/Altairis.Infrastructure/Repositories/InventoryRepository.cs:58-76 | When every night of `[start, end)` has a row, the positional check holds iff each night's row has room (both directions) |
| `InventoryRepository.RangeHoldsNightRows` | backend/Altairis.Infrastructure/Repositories/InventoryRepository.cs:34-41 | When every night has a row, position `i` of the range is the row of night `start + i` |
| `InventoryRepository.CheckoutRowFillsMissingNight` | backend/Altairis.Infrastructure/Repositories/InventoryRepository.cs:61-67 | After a successful check, either every night had a row or the last row counted is the checkout day's row |
| `InventoryRepository.CheckoutRowStandsIn` | backend/Altairis.Infrastructure/Repositories/InventoryRepository.cs:58-76 | A two-night stay whose middle night has no row passes the check, and its stay rows are the first night and the checkout day |
| `InventoryRepository.ReserveMatchesByNight` | backend/Altairis.Infrastructure/Repositories/InventoryRepository.cs:93-100 | When every night has a row, a reservation raises exactly the pair's rows with `start <= day < end` and leaves every other row, the checkout-day row included, unchanged |
| `InventoryRepository.NegativeReservationUnderflows` | backend/Altairis.Infrastructure/Repositories/InventoryRepository.cs:66-100 | The repository has no guard of its own: a check and reservation with `rooms = -1` pass and leave `reserved = -1` |
| `InventoryRepository.WrappedAvailabilityRefuses` | backend/Altairis.Infrastructure/Repositories/InventoryRepository.cs:69-70 | The availability is an `int` difference: with total `int.MaxValue` and reserved -1 it wraps to `int.MinValue`, and the check refuses one room the counts still hold |
| `Inventory.Row.Available` | backend/Altairis.Domain/Entities/Inventory.cs:13 | `CantidadDisponible` is `total - reserved` wrapped to 32 bits: always an `int`, and the plain difference whenever that fits |
| `Inventory.Row.HasRoomFor` | backend/Altairis.Infrastructure/Repositories/InventoryRepository.cs:69-73 | On a consistent row, the per-row test passes iff `reserved + rooms <= total` |
| `Inventory.Row.Reserve` | backend/Altairis.Infrastructure/Repositories/InventoryRepository.cs:98 | The `+=` keeps id, key and total and wraps to 32 bits; on a consistent row that passed the test with an `int` count, the new reserved count is the exact sum and stays within the total |
| `Inventory.ReserveTakesFromAvailable` | backend/Altairis.Infrastructure/Repositories/InventoryRepository.cs:69-98 | On a consistent row that passed the test for an `int` count, the reservation lowers `CantidadDisponible` by exactly that count whenever the result fits an `int`, always for a non-negative count, and then leaves it non-negative |
| `Inventory.NegativeReserveWrapsAvailable` | backend/Altairis.Domain/Entities/Inventory.cs:13 | A negative count can wrap the free count: total `int.MaxValue`, nothing reserved, one room handed back gives `int.MinValue` |
| `Inventory.NextId` | backend/Altairis.Domain/Entities/Inventory.cs:5 | The id handed to a new row is positive and larger than every id in the ledger |
| `Inventory.AppendKeepsValid` | backend/Altairis.Infrastructure/Data/AltairisDbContext.cs:53 | Appending a consistent row with a new key and a new id keeps the ledger valid |
| `InventoryService.CheckAvailabilityRequest` | backend/Altairis.Application/Services/InventoryService.cs:58-103 | The date guard on timestamps comes first, then the room-count guard, then the repository check on calendar days; a granted request carries the inclusive range as details, and a refused one carries none |
| `InventoryService.RequestGrantedIffRoomEveryNight` | backend/Altairis.Application/Services/InventoryService.cs:69-96 | With every night configured and days in order, a request is granted iff its count is positive and each night's row has room |
| `InventoryService.SameDayRequestGranted` | backend/Altairis.Application/Services/InventoryService.cs:60-94 | A request that starts and ends on the same calendar day, with the end later in the day, is granted whatever the ledger holds; its details are that day's rows |
| `InventoryService.DetailsIncludeCheckoutRow` | backend/Altairis.Application/Services/InventoryService.cs:85-95 | The details of a granted request include the checkout day's row when one exists |
| `InventoryService.CreateInventory` | backend/Altairis.Application/Services/InventoryService.cs:105-127 | Creation fails with the duplicate message when the calendar day already has a row, and with the server error when the hotel or room type does not exist (the foreign keys of backend/Altairis.Infrastructure/Data/AltairisDbContext.cs:55-63). Otherwise it appends one row with that key, the given total, nothing reserved and a new id |
| `InventoryService.CreateKeepsValid` | backend/Altairis.Application/Services/InventoryService.cs:105-127 | A successful create with a non-negative `int` total keeps the ledger valid, and keeps every row's foreign keys satisfied |
| `InventoryService.CreateAcceptsNegativeTotal` | backend/Altairis.Application/Services/InventoryService.cs:116-123 | The create does not check the total: a negative one is stored as an inconsistent row |
| `InventoryService.UpdateInventory` | backend/Altairis.Application/Services/InventoryService.cs:129-144 | An unknown id gives null; `reserved > total` is refused; otherwise exactly that row's two counts are overwritten |
| `InventoryService.UpdateKeepsValid` | backend/Altairis.Application/Services/InventoryService.cs:129-144 | A successful update with an `int` total and `reserved >= 0` keeps the ledger valid |
| `InventoryService.UpdateAcceptsNegativeReserved` | backend/Altairis.Application/Services/InventoryService.cs:134-140 | The update guards only `reserved > total`: a negative reserved count is stored as an inconsistent row |
| `InventoryService.ProvisionFrom` | backend/Altairis.Application/Services/InventoryService.cs:171-197 | The day loop only appends; each created row is of the pair, on a day in `[day, end)`, with the given total and nothing reserved |
| `InventoryService.ProvisionCreatesMissingDaysInOrder` | backend/Altairis.Application/Services/InventoryService.cs:176-196 | The loop creates rows only for days that had none, and returns them in strictly ascending date order |
| `InventoryService.ProvisionCoversEveryDay` | backend/Altairis.Application/Services/InventoryService.cs:171-197 | After the loop, every day of `[day, end)` has a row |
| `InventoryService.ProvisionKeepsValid` | backend/Altairis.Application/Services/InventoryService.cs:171-197 | With a non-negative `int` total, the loop keeps the ledger valid |
| `InventoryService.BulkCreate` | backend/Altairis.Application/Services/InventoryService.cs:146-200 | The guards are checked in order: timestamp order, positive total, at least one calendar night. Then the day loop runs over `[DayOf(start), DayOf(end))`; its first insert fails with the server error when the hotel or room type does not exist. It succeeds iff the guards pass and the keys exist or nothing is inserted |
| `InventoryService.BulkCreateFillsMissingDays` | backend/Altairis.Application/Services/InventoryService.cs:146-200 | A successful bulk create keeps existing rows, gives every night a row, and creates one exactly for the nights that lacked one, with nothing reserved and in date order; the ledger stays valid and every row keeps its foreign keys |
| `InventoryService.ConfiguredDaysProvisionNothing` | backend/Altairis.Application/Services/InventoryService.cs:181-184 | Over days that all have rows, the loop creates nothing and leaves the ledger unchanged |
| `InventoryService.BulkCreateRefusedIffDayMissing` | backend/Altairis.Application/Services/InventoryService.cs:176-196 | For an unknown hotel or room type, a bulk create whose guards pass fails iff some night of the range has no row |
| `InventoryService.BulkCreateIdempotent` | backend/Altairis.Application/Services/InventoryService.cs:146-200 | Repeating a successful bulk create, with any positive total, creates nothing and leaves the ledger as it was |
| `ReservationService.MapToDto` | backend/Altairis.Application/Services/ReservationService.cs:194-211 | The DTO carries the reservation, with hotel and room-type names present iff they exist; `Noches` is the number of whole days elapsed between the two timestamps |
| `ReservationService.Rejection` | backend/Altairis.Application/Services/ReservationService.cs:57-129 | The validation chain finds no failure iff the booking is admissible: entry not before today, exit after entry, positive rooms, an existing active hotel, an existing room type, and a passing availability check |
| `ReservationService.CreateReservation` | backend/Altairis.Application/Services/ReservationService.cs:54-167 | Each failing check gives its message, in source order, and leaves the store unchanged. Success holds iff the booking is admissible. It appends one `Confirmed` reservation with a new id and price `basePrice * (exit - entry).Days * rooms`, and reserves the stay on the ledger |
| `ReservationService.BookingKeepsLedgerValid` | backend/Altairis.Application/Services/ReservationService.cs:115-156 | A booking keeps the ledger valid, because the check precedes the increment and the room count is positive |
| `ReservationService.BookingReservesEachNight` | backend/Altairis.Application/Services/ReservationService.cs:151-156 | When every night is configured, an accepted booking raises exactly the rows of its nights by `rooms` |
| `ReservationService.RoomTypeOfAnotherHotelAccepted` | backend/Altairis.Application/Services/ReservationService.cs:104-112 | The room type is looked up by id alone: one belonging to another hotel is accepted, and the booking is recorded under the requested hotel |
| `ReservationService.PriceWithAlignedTimes` | backend/Altairis.Application/Services/ReservationService.cs:132-133 | With entry and exit at the same time of day, the amount is base price times calendar nights times rooms, and `Noches` is the calendar nights |
| `ReservationService.PriceWithEarlierCheckoutTime` | backend/Altairis.Application/Services/ReservationService.cs:132-133 | With a checkout earlier in the day than the check-in, `Noches` and the price count one night fewer than the calendar nights |
| `ReservationService.OvernightStayChargedNothing` | backend/Altairis.Application/Services/ReservationService.cs:132-156 | Check-in one afternoon and checkout the next morning reserves one ledger night and charges 0 |
| `ReservationService.Cancel` | backend/Altairis.Application/Services/ReservationService.cs:180-192 | An unknown id returns false and changes nothing; otherwise only that reservation's status becomes `Cancelled`, and the ledger is untouched |
| `ReservationService.CancelKeepsRoomsReserved` | backend/Altairis.Application/Services/ReservationService.cs:185-189 | Cancelling a fresh booking succeeds, but the ledger keeps the booking's increment |
| `ReservationService.UpdateStatus` | backend/Altairis.Application/Services/ReservationService.cs:169-178 | An unknown id gives null and changes nothing; otherwise only that reservation's status is overwritten, with any string |
| `ReservationService.LastStatusWins` | backend/Altairis.Application/Services/ReservationService.cs:169-178 | Two status updates in a row end as the second alone would |
| `HotelSearch.Filter` | backend/Altairis.Infrastructure/Repositories/HotelRepository.cs:36-42 | A null or blank term filters nothing; otherwise a hotel is kept iff its lower-cased name or address contains the lower-cased term |
| `HotelSearch.FilterIgnoresTermCase` | backend/Altairis.Infrastructure/Repositories/HotelRepository.cs:38-41 | Filtering by a term and by its lower-cased form gives the same hotels |
| `HotelSearch.SortByName` | backend/Altairis.Infrastructure/Repositories/HotelRepository.cs:49 | The ordering is a permutation of its input, sorted by name |
| `HotelSearch.TotalPagesIsLeast` | backend/Altairis.Application/DTOs/HotelDto.cs:35 | `TotalPages` is the least page count that covers every item (the ceiling of the count over the size) |
| `HotelSearch.NextPageIffItemsRemain` | backend/Altairis.Application/DTOs/HotelDto.cs:37 | `HasNextPage` holds iff items remain after the current page |
| `HotelSearch.EmptyResultHasNoNextPage` | backend/Altairis.Application/DTOs/HotelDto.cs:35-37 | With no items there are zero pages and no next page |
| `HotelSearch.GetPaged` | backend/Altairis.Infrastructure/Repositories/HotelRepository.cs:28-55 | The count is the filtered count. The page holds at most `pageSize` hotels, sorted by name and drawn from the filtered ones. While the page start fits in an `int`, it is the slice at `(pageNumber - 1) * pageSize` of the sorted filtered hotels |
| `HotelSearch.PageNonEmptyIffInRange` | backend/Altairis.Infrastructure/Repositories/HotelRepository.cs:48-52 | A page holds items iff its number is at most `TotalPages` |
| `HotelSearch.CountIgnoresPage` | backend/Altairis.Infrastructure/Repositories/HotelRepository.cs:45 | The total count does not depend on the page number or size |
| `HotelSearch.LargePageWrapsToFirst` | backend/Altairis.Infrastructure/Repositories/HotelRepository.cs:50 | The offset is computed in 32-bit arithmetic: page 65537 of size 65536 shows the first page again |
| `HotelSearch.GetActiveHotels` | backend/Altairis.Infrastructure/Repositories/HotelRepository.cs:57-63 | Exactly the active hotels are returned |
| `HotelSearch.ActiveHotelsKeepMultiplicity` | backend/Altairis.Infrastructure/Repositories/HotelRepository.cs:57-63 | Each active hotel is returned as many times as it is stored, and no inactive hotel is returned |
| `RoomTypes.ByHotel` | backend/Altairis.API/Controllers/RoomTypesController.cs:77 | Exactly the room types of the hotel are returned |
| `RoomTypes.AssignRoomTypesToHotel` | backend/Altairis.API/Controllers/RoomTypesController.cs:180-228 | The checks run in order: a missing or empty list gives 400; an unknown hotel gives 404; no matching room type gives 404. The answer is 200 iff the list is non-empty, the hotel exists and some listed id exists. Every failure leaves the store unchanged. On success exactly the listed room types move to the hotel, and the found ids are reported |
| `RoomTypes.AssignedIdsAreTheFoundOnes` | backend/Altairis.API/Controllers/RoomTypesController.cs:202-220 | The reported ids are exactly the requested ids that exist |
| `RoomTypes.AssignedRoomTypesListedUnderHotel` | backend/Altairis.API/Controllers/RoomTypesController.cs:210-214 | After a successful assignment, every moved room type is listed under the target hotel |
| `RoomTypes.AssignIdempotent` | backend/Altairis.API/Controllers/RoomTypesController.cs:210-214 | Repeating a successful assignment changes nothing further |
| `RoomTypes.UpdateRoomType` | backend/Altairis.API/Controllers/RoomTypesController.cs:122-149 | An unknown id gives 404 and changes nothing; otherwise exactly that room type's name and price are overwritten, and its hotel is kept |
| `RoomTypes.UpdateKeepsHotelListings` | backend/Altairis.API/Controllers/RoomTypesController.cs:138-139 | An update leaves every hotel's room-type count unchanged |
| `Display.MapEstadoToStatus` | frontend/lib/api.ts:135-141 | The status is classified by substring of its lower-cased form, checking `confirm`, then `pend`, then `cancel`; any other status passes through |
| `Display.SpanishAndEnglishStatusesAgree` | frontend/lib/api.ts:135-141 | `Confirmed`/`Confirmada`, `Cancelled`/`Cancelada` and `Pending`/`Pendiente` are displayed alike |
| `Display.WithoutNShownAsStored` | frontend/lib/api.ts:140 | A status with no `n` in it is shown as stored |
| `Display.MapEstadoIdempotent` | frontend/lib/api.ts:135-141 | Mapping a displayed status again changes nothing |
| `Display.MapEstadoIgnoresCase` | frontend/lib/api.ts:136 | A status and its lower-cased form are displayed alike, unless neither is classified, in which case each is shown as given |
| `Display.DisplayId` | frontend/lib/api.ts:145 | A display id is the prefix followed by the id's decimal text left-padded with zeros to three characters: four characters for ids below 1000, the bare text from 100 on, and only digits after the prefix for a non-negative id |
| `Display.DisplayIdRoundTrip` | frontend/lib/api.ts:145 | The digits of a display id read back as the id |
| `Display.DisplayIdInjective` | frontend/lib/api.ts:145 | Distinct non-negative ids get distinct display ids |
| `Display.MapReservation` | frontend/lib/api.ts:143-155 | The display id, backend id, guest, dates, classified status and total come from the DTO; a missing hotel or room-type name falls back to `Hotel <id>` / `RoomType <id>` |
| `Display.BookedReservationShownConfirmed` | frontend/lib/api.ts:151 | A reservation created by the service is displayed as `confirmed` |
| `Display.MapHotel` | frontend/lib/api.ts:169-178 | The mapping gives an `H` display id, `active` iff the hotel is active (else `inactive`), name, address and category as rating, and zero rooms and occupancy |
| `Display.HotelAndReservationIdsDiffer` | frontend/lib/api.ts:145-170 | A hotel display id never equals a reservation display id |
| `Text.NatToStringRoundTrip` | frontend/lib/api.ts:145 | The decimal digits of a number read back as that number |
| `Text.ZeroPaddingValue` | frontend/lib/api.ts:145 | Zero padding keeps a digit string all digits and keeps its value |

## Left out

- **Persistence.** EF Core mechanics, change tracking, navigation loading and `SaveChanges` are not modelled. Each write is the value of the store after the save. The generic `Repository<T>.AddAsync` is not part of this model; it is taken to save each row at once, as the ids it returns require. A save that the foreign keys refuse is modelled as the controller's 500 answer. Other database failures are not modelled; in particular, the column limits on text are not: `Estado` holds at most 50 characters and `HuespedNombre` at most 200 (`AltairisDbContext.cs:70-73`), and a longer value makes the save throw. `UpdateStatus` and `CreateReservation` store any string.
- **Concurrency.** Two bookings racing between the check and the increment are not modelled, and neither is the absence of a transaction around them. The model is sequential.
- **HTTP plumbing.** Controllers' `ModelState` checks, the 500 catch-all handlers (apart from the answer to a refused insert), logging and the fetch wrappers of the front end are out of scope. Only the decisions they return are modelled.
- **Clock.** `DateTime.Today` and `DateTime.UtcNow` become the parameters `today` and `now`. The browser's `new Date()` in the hotel mapping becomes the `today` string.
- **Id generation.** Ids come from the database identity column. The model hands out one past the largest id in use; only freshness matters.
- **Pass-through queries.** `GetAll`, `GetById` and `GetByHotel` of the reservation service are out of scope; they only map rows.
- **Seed data.** `DbInitializer` is out of scope.
- **JSON.** The front end receives dates as JSON strings. The model keeps them as `Moment` values and does not model serialisation.
- **Integer width.** `CantidadDisponible` and the `+=` of the reservation are 32-bit `int` arithmetic in the model. Ids, day numbers, nights and counts elsewhere are unbounded.
- **Money.** `MontoTotal` is `decimal` and `PrecioBase` is a price. Both are integers (cents) in the model, and neither overflow nor rounding is modelled.
- **Floating point.** `TotalPages` goes through `double` and `Math.Ceiling`. For `int` operands this is exact, so the model uses integer ceiling division.
- HotelSearch.GetPaged: the contract requires `1 <= pageNumber` and `1 <= pageSize`. The controller guard (`backend/Altairis.API/Controllers/HotelsController.cs:49-52`) admits nothing else, so the repository never sees other values.
- HotelSearch.GetPaged: when the 32-bit offset wraps to a negative value, SQL Server refuses the query. The model skips nothing instead, and the contract only pins the page exactly while the offset fits in an `int`.
- HotelSearch.SortByName: SQL `ORDER BY` leaves ties between equal names in an unspecified order. The contract states a sorted permutation and does not fix the tie order. Names compare by code point; database collation is not modelled.
- Display.MapEstadoToStatus: `toLowerCase` and `ToLower` are modelled on ASCII letters only. Culture-specific and non-ASCII case mappings are not modelled.
- HotelSearch.Filter: the match uses the same ASCII-only lower-casing, and SQL collation is not modelled.
- **Range ordering.** `GetInventoryRange` orders by the stored `Fecha`. Every write path stores a midnight (`.Date` or `startDate.AddDays`), so rows are modelled by day number. Ties under the unique index cannot occur.
- **Room counts.** The reservation does not store its room count, so nothing can hand rooms back on cancellation. The model proves that the increment stays (`CancelKeepsRoomsReserved`).
