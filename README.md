# Hotel inventory service: a Dafny model of its service layer

The hotel service keeps three kinds of record. A **Hotel** is the root. A **RoomType** belongs to one hotel. A **Room** belongs to one hotel and names a room type. Each kind has a record with a constructor, a repository over the database, and a service. The service offers four kinds of operation:

- listing, all rows or the rows of one hotel;
- a scoped lookup, where a child row is returned only when its stored hotel id is the hotel id asked for;
- creation;
- partial update: load the row, overwrite the supplied fields in place, write the whole row back.

The hotel and room-type services also offer an existence check. The room-type service reaches hotels only through that check, the `HotelValidator` capability.

The model has one module per Go package plus a shared one:

- `core.dfy` (`Core`): identifiers, timestamps, exact decimals and failures. It also has the service errors and Go's `(value, error)` return pair (`Reply`); a nil pointer result is `None`. `HotelValidator` is the existence-check capability.
- `hotel.dfy` (`Hotels`), `roomtype.dfy` (`RoomTypes`), `room.dfy` (`Rooms`): in each,
  - the record is a datatype and `New…` a function of its inputs;
  - the repository is a class whose `rows: map<Id, Record>` stands in for the table;
  - a ghost `log` records every write the service asked for, so "Save is called once" and "Update is never reached" can be stated;
  - the read-only service operations are functions of the rows;
  - `Create…` and `UpdatePartially…` are methods of a service class. They change the repository and assign the loaded record's fields one by one, as the Go code does.
- `scenario.dfy` (`Scenario`): a client that wires the services and walks one scenario from their contracts alone. A hotel is created. A room type is refused for a missing hotel, then created for the real one. A room is created and found through its own hotel, and refused through a second hotel.

Every store call takes a `fault: Option<Fault>` argument. A present fault makes the call fail and change nothing. This stands in for any database failure. An insert under an identifier that is already stored fails with `DuplicateKey`; this assumes the id is the table's primary key. An update that matches no row changes nothing and is not an error, as `UPDATE … WHERE id = ?` behaves.

Where the intended design and the code differ, the model follows the code:

- `RoomService` holds no validators, and `CreateRoom` saves without any existence check. The design asks for a hotel check and then a room-type check. The entry point `cmd/api/main.go:46` passes two validators to the one-argument `room.NewService`.
- `UpdatePartiallyRoom` takes a new room-type id as given.
- `GetHotelByID` returns no hotel and no error for an absent id.
- `UpdatePartiallyHotel` returns no hotel and no error when the lookup fails.
- `UpdatePartiallyHotel` writes a supplied description into `Status`.
- `updated_at` is never refreshed by a partial update.
- `status` is a free-form string everywhere, and so is room type `BedType`. The `queen`/`king`/`twin` constants are names only.

## Model

| member | source | states |
|---|---|---|
| `Core.InsertError` | internal/hotel/repository.go:21-27 | an insert fails exactly when a fault is injected or the id is already stored, and reports which |
| `Hotels.NewHotel` | internal/hotel/models.go:28-54 | an identifier-generator error gives no record and that error; otherwise the record carries the new id, both timestamps equal the one clock reading, and the six text fields are the arguments |
| `Hotels.HotelRepository.Save` | internal/hotel/repository.go:21-27 | logs one insert; on success the row is stored under its id, on failure the table is unchanged; rows stay keyed by their id |
| `Hotels.HotelRepository.Update` | internal/hotel/repository.go:29-35 | logs one overwrite; without a fault the row with the same id is replaced whole (no row: nothing changes, no error) |
| `Hotels.GetAll` | internal/hotel/repository.go:45-52 | every stored row, or no rows and the fault |
| `Core.GetByID` | internal/hotel/repository.go:54-64 | the by-id SELECT the three repositories share (internal/roomtype/repository.go and internal/room/repository.go have the same one): an absent id is (nil, nil), not an error; a present id gives its row; a fault gives the fault |
| `Hotels.ListHotels` | internal/hotel/service.go:26-36 | without a fault, exactly the stored hotels; with one, an empty collection and that fault |
| `Hotels.GetHotelByID` | internal/hotel/service.go:38-47 | any fault becomes the one error "unexpected error fetching hotel" with no hotel; otherwise no error, and a hotel exactly when the id is stored |
| `Hotels.ValidateHotelExists` | internal/hotel/service.go:102-108 | (true, nil) iff the row exists, (false, nil) if absent, (false, fault) on a fault |
| `Hotels.HotelValidatorOf` | internal/core/core.go:5-7 | the hotel service seen as a `HotelValidator`: for every id it answers as ValidateHotelExists does |
| `Hotels.ListedIffFetched` | internal/hotel/service.go:26-47 | a hotel is listed exactly when GetHotelByID under its own id returns it |
| `Hotels.ValidatorAgreesWithFetch` | internal/hotel/service.go:38-47 | without a fault the existence check says whether GetHotelByID finds a hotel; with one, the check passes the fault on while GetHotelByID replaces it |
| `Hotels.AbsentHotelIsNoError` | internal/hotel/service.go:41-46 | an absent id gives no hotel and no error, not ErrHotelNotFound |
| `Hotels.GetHotelByIDOrNotFound` | internal/hotel/service.go:38-47 | corrected lookup: no hotel always comes with an error, an absent id with a working store is ErrHotelNotFound, a stored hotel is returned with no error, and every input other than an absent id with a working store gives what GetHotelByID gives |
| `Hotels.Patched` | internal/hotel/service.go:80-91 | name and address are overwritten iff supplied; a supplied description ends in status, and wins over a supplied status; description, id, country, state and timestamps never change |
| `Hotels.PatchedIdempotent` | internal/hotel/service.go:80-91 | applying the same patch twice gives the row of applying it once |
| `Hotels.DescriptionIsWrittenToStatus` | internal/hotel/service.go:89-90 | there is a patch whose description is lost from `description` and appears as the status |
| `Hotels.PatchedAsIntended` | internal/hotel/service.go:80-91 | corrected patch: each of name, address, status and description is overwritten iff supplied, the other fields kept |
| `Hotels.AsIntendedAgreesWithoutDescription` | internal/hotel/service.go:80-91 | the corrected patch equals the written one on patches without a description, and is idempotent |
| `Hotels.HotelService.constructor` | internal/hotel/service.go:17-24 | the service holds the given repository |
| `Hotels.HotelService.CreateHotel` | internal/hotel/service.go:49-59 | exactly one Save; its error gives no hotel and an unchanged table; success returns the same hotel, stores it, and GetHotelByID then finds it |
| `Hotels.HotelService.UpdatePartiallyHotel` | internal/hotel/service.go:61-100 | a lookup fault returns (nil, nil) and an absent id ErrHotelNotFound, neither reaching Update; otherwise one Update of the patched row, whose fault returns (nil, fault) and leaves the table, and whose success returns and stores the patched row |
| `RoomTypes.NewRoomType` | internal/roomtype/models.go:35-63 | a generator error gives no record and that error; otherwise the record carries the new id, both timestamps equal the one clock reading, and the seven other fields are the arguments, so any bed type string, not only queen, king or twin, is accepted and kept |
| `RoomTypes.RoomTypeRepository.Save` | internal/roomtype/repository.go:21-29 | logs one insert; on success the row is stored under its id, on failure the table is unchanged |
| `RoomTypes.RoomTypeRepository.Update` | internal/roomtype/repository.go:31-40 | logs one overwrite; without a fault the row with the same id is replaced whole |
| `RoomTypes.GetByHotelID` | internal/roomtype/repository.go:91-102 | exactly the stored rows whose hotel id is the argument, or none and the fault |
| `RoomTypes.ListRoomTypesByHotelID` | internal/roomtype/service.go:31-41 | without a fault, exactly the stored room types of that hotel; with one, none and that fault |
| `RoomTypes.RetrieveRoomTypeByHotelRoomTypeID` | internal/roomtype/service.go:43-65 | a fault propagates, an absent row is ErrRoomTypeNotFound, a row of another hotel is "hotel doesn't have any room type with the provided identifier"; a stored row of the hotel asked for is returned with no error, and a row is returned only when it is the stored row and its hotel id is the one asked for |
| `RoomTypes.ValidateRoomTypeExists` | internal/roomtype/service.go:154-160 | (true, nil) iff the row exists, (false, nil) if absent, (false, fault) on a fault |
| `RoomTypes.ListedIffRetrieved` | internal/roomtype/service.go:31-65 | a room type is listed for a hotel exactly when the scoped lookup under that hotel returns it |
| `RoomTypes.ExistsIffRetrievedUnderItsHotel` | internal/roomtype/service.go:43-65 | a room type exists exactly when the scoped lookup succeeds under some hotel (its own) |
| `RoomTypes.InsertExtendsOwnHotelOnly` | internal/roomtype/service.go:82-89 | storing a new room type adds its id to its own hotel's listing and to no other |
| `RoomTypes.Patched` | internal/roomtype/service.go:123-140 | each of name, description, number of beds, bed type, max occupancy and base price is overwritten iff supplied; id, hotel id and both timestamps never change |
| `RoomTypes.PatchedIdempotent` | internal/roomtype/service.go:123-140 | applying the same patch twice gives the row of applying it once |
| `RoomTypes.PatchKeepsHotelListings` | internal/roomtype/service.go:123-142 | after a partial update every hotel lists the same room-type ids |
| `RoomTypes.RoomTypeService.constructor` | internal/roomtype/service.go:20-29 | the service holds the given repository; unlike `NewService`, it does not take or keep the hotel validator, which `CreateRoomType` receives on each call instead |
| `RoomTypes.RoomTypeService.CreateRoomType` | internal/roomtype/service.go:67-90 | a validator error is returned unchanged and no write happens; a false answer is "hotel does not exist" and no write happens; only a true answer reaches one Save, whose error propagates and whose success returns `r` and stores it |
| `RoomTypes.RoomTypeService.UpdatePartiallyRoomType` | internal/roomtype/service.go:92-152 | a lookup fault, an absent row (ErrRoomTypeNotFound) and a row of another hotel ("hotel does not have the room with the provided ID") return at once without Update; otherwise one Update of the patched row, whose fault propagates and whose success returns and stores the patched row |
| `Rooms.NewRoom` | internal/room/model.go:28-51 | a generator error gives no record and that error; otherwise the record carries the new id, each timestamp is its own clock reading, and the six other fields (status any string) are the arguments |
| `Rooms.TimestampsMayDiffer` | internal/room/model.go:42-43 | there are clock readings for which a new room's created-at and updated-at differ |
| `Rooms.RoomRepository.Save` | internal/room/repository.go:21-27 | logs one insert; on success the row is stored under its id, on failure the table is unchanged |
| `Rooms.RoomRepository.Update` | internal/room/repository.go:29-35 | logs one overwrite; without a fault the row with the same id is replaced whole |
| `Rooms.GetByHotelID` | internal/room/repository.go:75-86 | exactly the stored rows whose hotel id is the argument, or none and the fault |
| `Rooms.ListRoomsByHotelID` | internal/room/service.go:26-33 | without a fault, exactly the stored rooms of that hotel; with one, none and that fault |
| `Rooms.RetrieveRoomByHotelRoomID` | internal/room/service.go:35-52 | a fault propagates; an absent room is a nil dereference; a room of another hotel is "hotel doesn't have any room with the provided identifier" and never returned; a room of the hotel asked for is returned |
| `Rooms.AbsentRoomDereferencesNil` | internal/room/service.go:38-43 | there are inputs with a working store on which the lookup dereferences nil |
| `Rooms.RetrieveRoomByHotelRoomIDChecked` | internal/room/service.go:35-52 | corrected lookup: an absent room is "room not found"; only a room of the hotel asked for is returned; wherever the written lookup returns, both agree |
| `Rooms.ListedIffRetrieved` | internal/room/service.go:26-52 | a room is listed for a hotel exactly when the scoped lookup under that hotel returns it |
| `Rooms.InsertExtendsOwnHotelOnly` | internal/room/service.go:54-64 | storing a new room adds its id to its own hotel's listing and to no other |
| `Rooms.Patched` | internal/room/service.go:91-105 | each of room type id, floor, number, name and status is overwritten iff supplied; id, hotel id and both timestamps never change |
| `Rooms.PatchedIdempotent` | internal/room/service.go:91-105 | applying the same patch twice gives the row of applying it once |
| `Rooms.PatchKeepsHotelListings` | internal/room/service.go:91-113 | after a partial update every hotel lists the same room ids |
| `Rooms.RoomService.constructor` | internal/room/service.go:17-24 | the service holds the given repository and nothing else |
| `Rooms.RoomService.CreateRoom` | internal/room/service.go:54-64 | one Save with no hotel or room-type check; its error propagates with the table unchanged; success returns `r`, stores it, and lists it under its hotel |
| `Rooms.RoomService.UpdatePartiallyRoom` | internal/room/service.go:66-114 | a lookup fault, an absent row ("room not found") and a row of another hotel ("hotel does not have the room with the provided ID") return at once without Update; otherwise one Update of the patched row, whose fault gives (nil, fault) and whose success returns and stores the patched row |

## Findings

| source | as written | input that shows it | evidently intended | confidence | as-written member | corrected member |
|---|---|---|---|---|---|---|
| internal/hotel/service.go:89-90 | a supplied description is assigned to `Status` | a patch with only `description = "new"` on a hotel whose description is "old": the description stays "old" and the status becomes "new" | assign it to `Description` | high, not executed | `Hotels.Patched` (`Hotels.DescriptionIsWrittenToStatus`) | `Hotels.PatchedAsIntended` |
| internal/room/service.go:38-43 | `room.HotelID` is read without checking that a room was found | any room id not in the table, with a working store: GetByID gives (nil, nil) and the next line dereferences nil | return a not-found error, as UpdatePartiallyRoom does | high, not executed | `Rooms.RetrieveRoomByHotelRoomID` (`Rooms.AbsentRoomDereferencesNil`) | `Rooms.RetrieveRoomByHotelRoomIDChecked` |
| internal/hotel/service.go:41-46 | an absent hotel gives (nil, nil) | any hotel id not in the table, with a working store | return ErrHotelNotFound, as UpdatePartiallyHotel does for the same case | medium, not executed | `Hotels.GetHotelByID` (`Hotels.AbsentHotelIsNoError`) | `Hotels.GetHotelByIDOrNotFound` |

The service methods and the rest of the model keep the code as written; the corrected members stand beside them.

## Left out

- HTTP handlers, request decoding and payload validation (`internal/*/handler.go`), and the response projections (`internal/*/dtos.go`). These are transport and library code; delete endpoints perform no repository call.
- The SQL itself: the bun queries become the map-backed repositories above. `GetByHotelRoomID` and `Delete` are not modelled, because no service calls them. The repositories' `GetAll` for room types and rooms is not modelled either, because no service calls it.
- Identifier generation (UUID version 6, section 5.6 of RFC 9562) and the clock: their results are parameters of the `New…` functions. Uniqueness of generated ids is not modelled; a repeated id makes Save fail with `DuplicateKey`.
- `decimal.Decimal` is an opaque value that is only copied. Go's `int` fields are modelled as unbounded integers; they are only copied, so 64-bit range plays no part.
- The order of listed rows: the queries have no ORDER BY, so listings are sets. A nil slice and an empty slice are both the empty set.
- Aliasing of the Go pointers: a record is a value. `CreateHotel`, `CreateRoomType` and `CreateRoom` return a record equal to their argument, not the same object.
- Logging (`pkg/logger/logger.go`, a mutex-guarded global). Log calls have no effect on results.
- Configuration, the connection pool, server start and `cmd/api/main.go`. This is wiring and I/O; `scenario.dfy` wires the services its own way.
- Concurrency, including the lost update between two concurrent partial updates of one row. The model is sequential.
- RoomTypes.RoomTypeService.constructor: the Go `NewService` takes the `HotelValidator` and keeps it in the service; the model's constructor takes only the repository, and `CreateRoomType` receives the validator as an argument on every call. The validator is a function from hotel id to the answer the hotel service gives at that moment, and a function kept at construction would freeze the hotels table as it was then. `CreateRoomType` asks it once, as the Go code does; `Hotels.HotelValidatorOf` builds it from the current hotels table.
