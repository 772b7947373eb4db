/**
 * A client of the three services, wired as the API entry point wires them:
 * the room-type service asks the hotel service's existence check. Everything
 * asserted here follows from the services' contracts alone.
 */
module Scenario {
  import opened Core
  import Hotels
  import RoomTypes
  import Rooms

  method HotelRoomTypeRoom()
  {
    var hotelRepo := new Hotels.HotelRepository();
    var roomTypeRepo := new RoomTypes.RoomTypeRepository();
    var roomRepo := new Rooms.RoomRepository();
    var hotels := new Hotels.HotelService(hotelRepo);
    var roomTypes := new RoomTypes.RoomTypeService(roomTypeRepo);
    var rooms := new Rooms.RoomService(roomRepo);

    // A hotel "Grand Plaza".
    var h := Hotels.NewHotel("Grand Plaza", "Main St 1", "CL", "RM", "open", "", Time(0), Reply(Id(1), None));
    var createdHotel := hotels.CreateHotel(h.value.value, None);
    assert createdHotel.err.None?;

    // A room type for a hotel that does not exist is refused before any write.
    var orphanType := RoomTypes.NewRoomType(Id(99), "Double", "", 2, RoomTypes.QueenSize, 2,
                                            Decimal(15000, -2), Time(1), Reply(Id(2), None));
    var refused := roomTypes.CreateRoomType(orphanType.value.value, Hotels.HotelValidatorOf(hotelRepo.rows, None), None);
    assert refused.err == Some(Message(RoomTypes.HotelDoesNotExist));
    assert roomTypeRepo.log == [];

    // A room type with two beds at 150.00 under the hotel.
    var rt := RoomTypes.NewRoomType(Id(1), "Double", "", 2, RoomTypes.QueenSize, 2,
                                    Decimal(15000, -2), Time(1), Reply(Id(2), None));
    var createdType := roomTypes.CreateRoomType(rt.value.value, Hotels.HotelValidatorOf(hotelRepo.rows, None), None);
    assert createdType.value == Some(rt.value.value);

    // Room 301 on floor 3 of that hotel, of that room type.
    var room := Rooms.NewRoom(Id(1), Id(2), 3, 301, "301", "available", Time(2), Time(2), Reply(Id(3), None));
    var createdRoom := rooms.CreateRoom(room.value.value, None);
    assert createdRoom.err.None?;

    var found := Rooms.RetrieveRoomByHotelRoomID(roomRepo.rows, Id(1), Id(3), None);
    assert found == Rooms.Returned(Reply(Some(room.value.value), None));
    assert found.reply.value.value.hotelId == Id(1) && found.reply.value.value.roomTypeId == Id(2);

    // A second hotel does not see the first hotel's room.
    var h2 := Hotels.NewHotel("Second", "Side St 2", "CL", "RM", "open", "", Time(3), Reply(Id(4), None));
    var createdHotel2 := hotels.CreateHotel(h2.value.value, None);
    assert createdHotel2.err.None?;
    var foreign := Rooms.RetrieveRoomByHotelRoomID(roomRepo.rows, Id(4), Id(3), None);
    assert foreign == Rooms.Returned(Reply(None, Some(Message(Rooms.NoRoomForHotel))));
  }
}
