/**
 * Package room: the Room record and its constructor, the rooms table over
 * an in-memory map, and the room service. The service holds only its
 * repository: it consults no hotel or room-type validator.
 */
module Rooms {
  import opened Core

  datatype Room = Room(
    id: Id,
    createdAt: Time,
    updatedAt: Time,
    hotelId: Id,
    roomTypeId: Id,
    floor: int,
    number: int,
    name: string,
    status: string)

  const NoRoomForHotel: string := "hotel doesn't have any room with the provided identifier"
  const RoomNotFound: string := "room not found"
  const RoomNotOfHotel: string := "hotel does not have the room with the provided ID"

  /**
   * NewRoom. The clock is read twice, once per timestamp, so the two
   * readings are separate inputs; `generated` is what the identifier
   * generator returned. The status is any string.
   */
  function NewRoom(
    hotelId: Id, roomTypeId: Id, floor: int, number: int, name: string, status: string,
    createdNow: Time, updatedNow: Time, generated: Reply<Id>): (r: Reply<Option<Room>>)
    ensures r.err == generated.err
    ensures r.value.Some? <==> generated.err.None?
    ensures r.value.Some? ==>
      && r.value.value.id == generated.value
      && r.value.value.createdAt == createdNow && r.value.value.updatedAt == updatedNow
      && r.value.value.hotelId == hotelId && r.value.value.roomTypeId == roomTypeId
      && r.value.value.floor == floor && r.value.value.number == number
      && r.value.value.name == name && r.value.value.status == status
  {
    if generated.err.Some? then Reply(None, generated.err)
    else Reply(Some(Room(generated.value, createdNow, updatedNow, hotelId, roomTypeId,
                         floor, number, name, status)), None)
  }

  /** The two clock readings may differ, so a new room need not have equal timestamps. */
  lemma TimestampsMayDiffer()
    ensures exists createdNow: Time, updatedNow: Time ::
      && NewRoom(Id(1), Id(2), 3, 301, "301", "available", createdNow, updatedNow, Reply(Id(9), None)).value.Some?
      && NewRoom(Id(1), Id(2), 3, 301, "301", "available", createdNow, updatedNow, Reply(Id(9), None)).value.value.createdAt
         != NewRoom(Id(1), Id(2), 3, 301, "301", "available", createdNow, updatedNow, Reply(Id(9), None)).value.value.updatedAt
  {
    var r := NewRoom(Id(1), Id(2), 3, 301, "301", "available", Time(100), Time(101), Reply(Id(9), None));
    assert r.value.value.createdAt != r.value.value.updatedAt;
  }

  // ---------------------------------------------------------------------
  // The rooms table
  // ---------------------------------------------------------------------

  /** Every row is stored under its own identifier. */
  ghost predicate Keyed(rows: map<Id, Room>) {
    forall id :: id in rows ==> rows[id].id == id
  }

  class RoomRepository {
    var rows: map<Id, Room>
    /** The writes requested so far, in order, whether or not they succeeded. */
    ghost var log: seq<Write<Room>>

    ghost predicate Valid()
      reads this
    {
      Keyed(rows)
    }

    constructor ()
      ensures Valid() && rows == map[] && log == []
    {
      rows := map[];
      log := [];
    }

    /** INSERT of a new row. */
    method Save(room: Room, fault: Option<Fault>) returns (err: Option<Error>)
      requires Valid()
      modifies this
      ensures Valid()
      ensures log == old(log) + [Insert(room)]
      ensures err == InsertError(old(rows), room.id, fault)
      ensures rows == if err.None? then old(rows)[room.id := room] else old(rows)
    {
      log := log + [Insert(room)];
      err := InsertError(rows, room.id, fault);
      if err.None? {
        rows := rows[room.id := room];
      }
    }

    /** UPDATE of the whole row whose id is `room.id`; no matching row is not an error. */
    method Update(room: Room, fault: Option<Fault>) returns (err: Option<Error>)
      requires Valid()
      modifies this
      ensures Valid()
      ensures log == old(log) + [Overwrite(room)]
      ensures err == FaultError(fault)
      ensures rows == if err.None? && room.id in old(rows) then old(rows)[room.id := room] else old(rows)
    {
      log := log + [Overwrite(room)];
      err := FaultError(fault);
      if err.None? && room.id in rows {
        rows := rows[room.id := room];
      }
    }
  }

  /** SELECT ... WHERE hotel_id = ?; the driver's failure gives no rows. */
  function GetByHotelID(rows: map<Id, Room>, hotelId: Id, fault: Option<Fault>): (r: Reply<set<Room>>)
    ensures r.err == FaultError(fault)
    ensures forall m :: m in r.value <==> fault.None? && m in rows.Values && m.hotelId == hotelId
  {
    if fault.Some? then Reply({}, FaultError(fault))
    else Reply((set r | r in rows.Values && r.hotelId == hotelId), None)
  }

  // ---------------------------------------------------------------------
  // The room service: read-only operations
  // ---------------------------------------------------------------------

  /** ListRoomsByHotelID: the rooms of one hotel, or nothing and the store's error. */
  function ListRoomsByHotelID(rows: map<Id, Room>, hotelId: Id, fault: Option<Fault>): (r: Reply<set<Room>>)
    ensures r.err == FaultError(fault)
    ensures fault.Some? ==> r.value == {}
    ensures fault.None? ==> forall m :: m in r.value <==> m.hotelId == hotelId && exists id :: id in rows && rows[id] == m
  {
    var found := GetByHotelID(rows, hotelId, fault);
    if found.err.Some? then Reply({}, found.err) else Reply(found.value, None)
  }

  /** A call that either returns its Go result pair or panics on a nil pointer. */
  datatype Outcome<+T> = Returned(reply: T) | NilDereference

  /**
   * RetrieveRoomByHotelRoomID as written: it reads the hotel id of the
   * fetched room without checking that a room was found, so an absent room
   * is a nil dereference. A room of another hotel is never returned.
   */
  function RetrieveRoomByHotelRoomID(
    rows: map<Id, Room>, hotelId: Id, roomId: Id, fault: Option<Fault>): (o: Outcome<Reply<Option<Room>>>)
    ensures o.NilDereference? <==> fault.None? && roomId !in rows
    ensures fault.Some? ==> o == Returned(Reply(None, FaultError(fault)))
    ensures fault.None? && roomId in rows && rows[roomId].hotelId != hotelId ==>
      o == Returned(Reply(None, Some(Message(NoRoomForHotel))))
    ensures fault.None? && roomId in rows && rows[roomId].hotelId == hotelId ==>
      o == Returned(Reply(Some(rows[roomId]), None))
    ensures o.Returned? ==> (o.reply.value.Some? <==> o.reply.err.None?)
    ensures o.Returned? && o.reply.value.Some? ==>
      && fault.None? && roomId in rows
      && o.reply.value.value == rows[roomId] && o.reply.value.value.hotelId == hotelId
  {
    var found := GetByID(rows, roomId, fault);
    if found.err.Some? then Returned(Reply(None, found.err))
    else match found.value
      case None => NilDereference
      case Some(room) =>
        if room.hotelId != hotelId then Returned(Reply(None, Some(Message(NoRoomForHotel))))
        else Returned(Reply(Some(room), None))
  }

  /** There are inputs, an absent room and a store that answers, on which the lookup panics. */
  lemma AbsentRoomDereferencesNil()
    ensures exists rows: map<Id, Room>, hotelId: Id, roomId: Id ::
      RetrieveRoomByHotelRoomID(rows, hotelId, roomId, None) == NilDereference
  {
    var rows: map<Id, Room> := map[];
    assert RetrieveRoomByHotelRoomID(rows, Id(1), Id(2), None) == NilDereference;
  }

  /**
   * The scoped room lookup as evidently intended: an absent room is
   * reported as "room not found", the message the partial update uses.
   */
  function RetrieveRoomByHotelRoomIDChecked(
    rows: map<Id, Room>, hotelId: Id, roomId: Id, fault: Option<Fault>): (r: Reply<Option<Room>>)
    ensures r.value.Some? <==> r.err.None?
    ensures fault.None? && roomId !in rows ==> r.err == Some(Message(RoomNotFound))
    ensures r.value.Some? ==> r.value.value.hotelId == hotelId
    ensures RetrieveRoomByHotelRoomID(rows, hotelId, roomId, fault).Returned? ==>
      r == RetrieveRoomByHotelRoomID(rows, hotelId, roomId, fault).reply
  {
    var found := GetByID(rows, roomId, fault);
    if found.err.Some? then Reply(None, found.err)
    else if found.value.None? then Reply(None, Some(Message(RoomNotFound)))
    else if found.value.value.hotelId != hotelId then Reply(None, Some(Message(NoRoomForHotel)))
    else Reply(found.value, None)
  }

  /** The ids of a collection of rooms. */
  function IdsOf(rs: set<Room>): set<Id> {
    set r | r in rs :: r.id
  }

  /**
   * The scoped lookup and the listing agree: a room is listed for a hotel
   * exactly when the scoped lookup under that hotel returns it.
   */
  lemma ListedIffRetrieved(rows: map<Id, Room>, hotelId: Id, m: Room)
    requires Keyed(rows)
    ensures m in ListRoomsByHotelID(rows, hotelId, None).value
        <==> RetrieveRoomByHotelRoomID(rows, hotelId, m.id, None) == Returned(Reply(Some(m), None))
  {
    if m in ListRoomsByHotelID(rows, hotelId, None).value {
      var id :| id in rows && rows[id] == m;
      assert id == m.id;
    }
  }

  /**
   * Inserting a new room adds its id to the listing of its own hotel and to
   * no other, whether or not that hotel or room type exists.
   */
  lemma InsertExtendsOwnHotelOnly(rows: map<Id, Room>, m: Room, hotelId: Id)
    requires Keyed(rows) && m.id !in rows
    ensures IdsOf(ListRoomsByHotelID(rows[m.id := m], hotelId, None).value)
         == IdsOf(ListRoomsByHotelID(rows, hotelId, None).value) + (if m.hotelId == hotelId then {m.id} else {})
  {
    var before := ListRoomsByHotelID(rows, hotelId, None).value;
    var after := ListRoomsByHotelID(rows[m.id := m], hotelId, None).value;
    var extra: set<Id> := if m.hotelId == hotelId then {m.id} else {};
    forall id | id in IdsOf(after)
      ensures id in IdsOf(before) + extra
    {
      var u :| u in after && u.id == id;
      var k :| k in rows[m.id := m] && rows[m.id := m][k] == u;
      if k != m.id {
        assert u in before;
      }
    }
    forall id | id in IdsOf(before) + extra
      ensures id in IdsOf(after)
    {
      if id in IdsOf(before) {
        var u :| u in before && u.id == id;
        var k :| k in rows && rows[k] == u;
        assert k != m.id;
        assert rows[m.id := m][k] == u;
        assert u in after;
      } else {
        assert rows[m.id := m][m.id] == m;
        assert m in after;
      }
    }
  }

  // ---------------------------------------------------------------------
  // Partial update
  // ---------------------------------------------------------------------

  /** The optional fields of a partial update; `None` is a field that was not supplied. */
  datatype RoomPatch = RoomPatch(
    roomTypeId: Option<Id>,
    floor: Option<int>,
    number: Option<int>,
    name: Option<string>,
    status: Option<string>)

  /**
   * The row UpdatePartiallyRoom writes back: every supplied field
   * overwritten, the rest kept. A new room type id is taken as given.
   */
  function Patched(m: Room, p: RoomPatch): (r: Room)
    ensures r.id == m.id && r.hotelId == m.hotelId
    ensures r.createdAt == m.createdAt && r.updatedAt == m.updatedAt
    ensures p.roomTypeId.Some? ==> r.roomTypeId == p.roomTypeId.value
    ensures p.roomTypeId.None? ==> r.roomTypeId == m.roomTypeId
    ensures p.floor.Some? ==> r.floor == p.floor.value
    ensures p.floor.None? ==> r.floor == m.floor
    ensures p.number.Some? ==> r.number == p.number.value
    ensures p.number.None? ==> r.number == m.number
    ensures p.name.Some? ==> r.name == p.name.value
    ensures p.name.None? ==> r.name == m.name
    ensures p.status.Some? ==> r.status == p.status.value
    ensures p.status.None? ==> r.status == m.status
  {
    m.(roomTypeId := p.roomTypeId.GetOr(m.roomTypeId),
       floor := p.floor.GetOr(m.floor),
       number := p.number.GetOr(m.number),
       name := p.name.GetOr(m.name),
       status := p.status.GetOr(m.status))
  }

  /** Applying the same patch a second time changes nothing more. */
  lemma PatchedIdempotent(m: Room, p: RoomPatch)
    ensures Patched(Patched(m, p), p) == Patched(m, p)
  {
  }

  /**
   * A partial update never moves a room to another hotel: the listing of
   * every hotel keeps the same ids.
   */
  lemma PatchKeepsHotelListings(rows: map<Id, Room>, id: Id, p: RoomPatch, hotelId: Id)
    requires Keyed(rows) && id in rows
    ensures IdsOf(ListRoomsByHotelID(rows[id := Patched(rows[id], p)], hotelId, None).value)
         == IdsOf(ListRoomsByHotelID(rows, hotelId, None).value)
  {
    var rows' := rows[id := Patched(rows[id], p)];
    var before := ListRoomsByHotelID(rows, hotelId, None).value;
    var after := ListRoomsByHotelID(rows', hotelId, None).value;
    forall i | i in IdsOf(after)
      ensures i in IdsOf(before)
    {
      var u :| u in after && u.id == i;
      var k :| k in rows' && rows'[k] == u;
      if k == id {
        assert rows[id] in before;
      } else {
        assert u in before;
      }
    }
    forall i | i in IdsOf(before)
      ensures i in IdsOf(after)
    {
      var u :| u in before && u.id == i;
      var k :| k in rows && rows[k] == u;
      assert rows'[k] in after;
    }
  }

  // ---------------------------------------------------------------------
  // The room service: operations that write
  // ---------------------------------------------------------------------

  class RoomService {
    const repo: RoomRepository

    constructor (repo: RoomRepository)
      ensures this.repo == repo
    {
      this.repo := repo;
    }

    /**
     * CreateRoom: Save straight away, with no check that the hotel or the
     * room type exists.
     */
    method CreateRoom(r: Room, saveFault: Option<Fault>) returns (result: Reply<Option<Room>>)
      requires repo.Valid()
      modifies repo
      ensures repo.Valid()
      ensures repo.log == old(repo.log) + [Insert(r)]
      ensures result.err == InsertError(old(repo.rows), r.id, saveFault)
      ensures result.err.Some? ==> result.value.None? && repo.rows == old(repo.rows)
      ensures result.err.None? ==> result.value == Some(r) && repo.rows == old(repo.rows)[r.id := r]
      ensures result.err.None? ==> r in ListRoomsByHotelID(repo.rows, r.hotelId, None).value
    {
      var err := repo.Save(r, saveFault);
      if err.Some? {
        return Reply(None, err);
      }
      assert repo.rows[r.id] == r;
      return Reply(Some(r), None);
    }

    /**
     * UpdatePartiallyRoom: load, check that the row belongs to the hotel,
     * overwrite the supplied fields of the loaded row one by one, write the
     * whole row back. The three early exits do not reach Update.
     */
    method UpdatePartiallyRoom(
      roomId: Id, hotelId: Id,
      roomTypeId: Option<Id>, floor: Option<int>, number: Option<int>,
      name: Option<string>, status: Option<string>,
      getFault: Option<Fault>, updateFault: Option<Fault>)
      returns (result: Reply<Option<Room>>)
      requires repo.Valid()
      modifies repo
      ensures repo.Valid()
      ensures result.value.Some? <==> result.err.None?
      ensures getFault.Some? ==>
        result.err == FaultError(getFault) && repo.rows == old(repo.rows) && repo.log == old(repo.log)
      ensures getFault.None? && roomId !in old(repo.rows) ==>
        result.err == Some(Message(RoomNotFound)) && repo.rows == old(repo.rows) && repo.log == old(repo.log)
      ensures getFault.None? && roomId in old(repo.rows) && old(repo.rows)[roomId].hotelId != hotelId ==>
        result.err == Some(Message(RoomNotOfHotel)) && repo.rows == old(repo.rows) && repo.log == old(repo.log)
      ensures getFault.None? && roomId in old(repo.rows) && old(repo.rows)[roomId].hotelId == hotelId ==>
        var patched := Patched(old(repo.rows)[roomId], RoomPatch(roomTypeId, floor, number, name, status));
        && repo.log == old(repo.log) + [Overwrite(patched)]
        && result.err == FaultError(updateFault)
        && repo.rows == (if updateFault.None? then old(repo.rows)[roomId := patched] else old(repo.rows))
        && (updateFault.None? ==> result.value == Some(patched))
    {
      var found := GetByID(repo.rows, roomId, getFault);
      if found.err.Some? {
        return Reply(None, found.err);
      }
      if found.value.None? {
        return Reply(None, Some(Message(RoomNotFound)));
      }
      var room := found.value.value;
      if room.hotelId != hotelId {
        return Reply(None, Some(Message(RoomNotOfHotel)));
      }
      if roomTypeId.Some? {
        room := room.(roomTypeId := roomTypeId.value);
      }
      if floor.Some? {
        room := room.(floor := floor.value);
      }
      if number.Some? {
        room := room.(number := number.value);
      }
      if name.Some? {
        room := room.(name := name.value);
      }
      if status.Some? {
        room := room.(status := status.value);
      }
      var err := repo.Update(room, updateFault);
      if err.Some? {
        return Reply(None, err);
      }
      return Reply(Some(room), None);
    }
  }
}
