/**
 * Package roomtype: the RoomType record and its constructor, the room-types
 * table over an in-memory map, and the room-type service, which reaches the
 * hotels only through the HotelValidator capability.
 */
module RoomTypes {
  import opened Core

  /** The bed types the package names; the record's field is a plain string and takes any value. */
  const QueenSize: string := "queen"
  const KingSize: string := "king"
  const TwinSize: string := "twin"

  datatype RoomType = RoomType(
    id: Id,
    createdAt: Time,
    updatedAt: Time,
    hotelId: Id,
    name: string,
    description: string,
    numberOfBeds: int,
    bedType: string,
    maxOccupancy: int,
    basePrice: Decimal)

  const NoRoomTypeForHotel: string := "hotel doesn't have any room type with the provided identifier"
  const HotelDoesNotExist: string := "hotel does not exist"
  const RoomNotOfHotel: string := "hotel does not have the room with the provided ID"

  /**
   * NewRoomType. `now` is the single clock reading and `generated` is what
   * the identifier generator returned.
   */
  function NewRoomType(
    hotelId: Id, name: string, description: string, numberOfBeds: int,
    bedType: string, maxOccupancy: int, basePrice: Decimal,
    now: Time, generated: Reply<Id>): (r: Reply<Option<RoomType>>)
    ensures r.err == generated.err
    ensures r.value.Some? <==> generated.err.None?
    ensures r.value.Some? ==>
      && r.value.value.id == generated.value
      && r.value.value.createdAt == r.value.value.updatedAt == now
      && r.value.value.hotelId == hotelId
      && r.value.value.name == name && r.value.value.description == description
      && r.value.value.numberOfBeds == numberOfBeds && r.value.value.bedType == bedType
      && r.value.value.maxOccupancy == maxOccupancy && r.value.value.basePrice == basePrice
  {
    if generated.err.Some? then Reply(None, generated.err)
    else Reply(Some(RoomType(generated.value, now, now, hotelId, name, description,
                             numberOfBeds, bedType, maxOccupancy, basePrice)), None)
  }

  // ---------------------------------------------------------------------
  // The room-types table
  // ---------------------------------------------------------------------

  /** Every row is stored under its own identifier. */
  ghost predicate Keyed(rows: map<Id, RoomType>) {
    forall id :: id in rows ==> rows[id].id == id
  }

  class RoomTypeRepository {
    var rows: map<Id, RoomType>
    /** The writes requested so far, in order, whether or not they succeeded. */
    ghost var log: seq<Write<RoomType>>

    ghost predicate Valid()
      reads this
    {
      Keyed(rows)
    }

    constructor ()
      ensures Valid() && rows == map[] && log == []
    {
      rows := map[];
      log := [];
    }

    /** INSERT of a new row. */
    method Save(roomType: RoomType, fault: Option<Fault>) returns (err: Option<Error>)
      requires Valid()
      modifies this
      ensures Valid()
      ensures log == old(log) + [Insert(roomType)]
      ensures err == InsertError(old(rows), roomType.id, fault)
      ensures rows == if err.None? then old(rows)[roomType.id := roomType] else old(rows)
    {
      log := log + [Insert(roomType)];
      err := InsertError(rows, roomType.id, fault);
      if err.None? {
        rows := rows[roomType.id := roomType];
      }
    }

    /** UPDATE of the whole row whose id is `roomType.id`; no matching row is not an error. */
    method Update(roomType: RoomType, fault: Option<Fault>) returns (err: Option<Error>)
      requires Valid()
      modifies this
      ensures Valid()
      ensures log == old(log) + [Overwrite(roomType)]
      ensures err == FaultError(fault)
      ensures rows == if err.None? && roomType.id in old(rows) then old(rows)[roomType.id := roomType] else old(rows)
    {
      log := log + [Overwrite(roomType)];
      err := FaultError(fault);
      if err.None? && roomType.id in rows {
        rows := rows[roomType.id := roomType];
      }
    }
  }

  /** SELECT ... WHERE hotel_id = ?; the driver's failure gives no rows. */
  function GetByHotelID(rows: map<Id, RoomType>, hotelId: Id, fault: Option<Fault>): (r: Reply<set<RoomType>>)
    ensures r.err == FaultError(fault)
    ensures forall t :: t in r.value <==> fault.None? && t in rows.Values && t.hotelId == hotelId
  {
    if fault.Some? then Reply({}, FaultError(fault))
    else Reply((set t | t in rows.Values && t.hotelId == hotelId), None)
  }

  // ---------------------------------------------------------------------
  // The room-type service: read-only operations
  // ---------------------------------------------------------------------

  /** ListRoomTypesByHotelID: the room types of one hotel, or nothing and the store's error. */
  function ListRoomTypesByHotelID(rows: map<Id, RoomType>, hotelId: Id, fault: Option<Fault>): (r: Reply<set<RoomType>>)
    ensures r.err == FaultError(fault)
    ensures fault.Some? ==> r.value == {}
    ensures fault.None? ==> forall t :: t in r.value <==> t.hotelId == hotelId && exists id :: id in rows && rows[id] == t
  {
    var found := GetByHotelID(rows, hotelId, fault);
    if found.err.Some? then Reply({}, found.err) else Reply(found.value, None)
  }

  /**
   * RetrieveRoomTypeByHotelRoomTypeID: fetch by id, then check that the row
   * belongs to the requested hotel. A store failure, an absent row and a row
   * of another hotel give three distinct errors; only a row of the requested
   * hotel is ever returned.
   */
  function RetrieveRoomTypeByHotelRoomTypeID(
    rows: map<Id, RoomType>, hotelId: Id, roomTypeId: Id, fault: Option<Fault>): (r: Reply<Option<RoomType>>)
    ensures r.value.Some? <==> r.err.None?
    ensures fault.Some? ==> r.err == FaultError(fault)
    ensures fault.None? && roomTypeId !in rows ==> r.err == Some(ErrRoomTypeNotFound)
    ensures fault.None? && roomTypeId in rows && rows[roomTypeId].hotelId != hotelId ==>
      r.err == Some(Message(NoRoomTypeForHotel))
    ensures fault.None? && roomTypeId in rows && rows[roomTypeId].hotelId == hotelId ==>
      r == Reply(Some(rows[roomTypeId]), None)
    ensures r.value.Some? ==>
      && fault.None? && roomTypeId in rows
      && r.value.value == rows[roomTypeId] && r.value.value.hotelId == hotelId
  {
    var found := GetByID(rows, roomTypeId, fault);
    if found.err.Some? then Reply(None, found.err)
    else if found.value.None? then Reply(None, Some(ErrRoomTypeNotFound))
    else if found.value.value.hotelId != hotelId then Reply(None, Some(Message(NoRoomTypeForHotel)))
    else Reply(found.value, None)
  }

  /**
   * ValidateRoomTypeExists: true exactly when the row is there; a store
   * failure is passed on with false.
   */
  function ValidateRoomTypeExists(rows: map<Id, RoomType>, id: Id, fault: Option<Fault>): (r: Reply<bool>)
    ensures r.err == FaultError(fault)
    ensures r.value <==> fault.None? && id in rows
  {
    var found := GetByID(rows, id, fault);
    if found.err.Some? then Reply(false, found.err)
    else Reply(found.value.Some?, None)
  }

  /** The ids of a collection of room types. */
  function IdsOf(ts: set<RoomType>): set<Id> {
    set t | t in ts :: t.id
  }

  /**
   * The scoped lookup and the listing agree: a room type is listed for a
   * hotel exactly when the scoped lookup under that hotel returns it.
   */
  lemma ListedIffRetrieved(rows: map<Id, RoomType>, hotelId: Id, t: RoomType)
    requires Keyed(rows)
    ensures t in ListRoomTypesByHotelID(rows, hotelId, None).value
        <==> RetrieveRoomTypeByHotelRoomTypeID(rows, hotelId, t.id, None) == Reply(Some(t), None)
  {
    if t in ListRoomTypesByHotelID(rows, hotelId, None).value {
      var id :| id in rows && rows[id] == t;
      assert id == t.id;
    }
  }

  /**
   * A room type exists exactly when the scoped lookup under its own hotel
   * finds it; the existence check does not look at the hotel.
   */
  lemma ExistsIffRetrievedUnderItsHotel(rows: map<Id, RoomType>, id: Id)
    ensures ValidateRoomTypeExists(rows, id, None).value
        <==> exists h :: RetrieveRoomTypeByHotelRoomTypeID(rows, h, id, None).err.None?
  {
    if id in rows {
      assert RetrieveRoomTypeByHotelRoomTypeID(rows, rows[id].hotelId, id, None).err.None?;
    }
  }

  /**
   * Inserting a new room type adds its id to the listing of its own hotel
   * and to no other.
   */
  lemma InsertExtendsOwnHotelOnly(rows: map<Id, RoomType>, t: RoomType, hotelId: Id)
    requires Keyed(rows) && t.id !in rows
    ensures IdsOf(ListRoomTypesByHotelID(rows[t.id := t], hotelId, None).value)
         == IdsOf(ListRoomTypesByHotelID(rows, hotelId, None).value) + (if t.hotelId == hotelId then {t.id} else {})
  {
    var before := ListRoomTypesByHotelID(rows, hotelId, None).value;
    var after := ListRoomTypesByHotelID(rows[t.id := t], hotelId, None).value;
    var extra: set<Id> := if t.hotelId == hotelId then {t.id} else {};
    forall id | id in IdsOf(after)
      ensures id in IdsOf(before) + extra
    {
      var u :| u in after && u.id == id;
      var k :| k in rows[t.id := t] && rows[t.id := t][k] == u;
      if k != t.id {
        assert u in before;
      }
    }
    forall id | id in IdsOf(before) + extra
      ensures id in IdsOf(after)
    {
      if id in IdsOf(before) {
        var u :| u in before && u.id == id;
        var k :| k in rows && rows[k] == u;
        assert k != t.id;
        assert rows[t.id := t][k] == u;
        assert u in after;
      } else {
        assert rows[t.id := t][t.id] == t;
        assert t in after;
      }
    }
  }

  // ---------------------------------------------------------------------
  // Partial update
  // ---------------------------------------------------------------------

  /** The optional fields of a partial update; `None` is a field that was not supplied. */
  datatype RoomTypePatch = RoomTypePatch(
    name: Option<string>,
    description: Option<string>,
    numberOfBeds: Option<int>,
    bedType: Option<string>,
    maxOccupancy: Option<int>,
    basePrice: Option<Decimal>)

  /** The row UpdatePartiallyRoomType writes back: every supplied field overwritten, the rest kept. */
  function Patched(t: RoomType, p: RoomTypePatch): (r: RoomType)
    ensures r.id == t.id && r.hotelId == t.hotelId
    ensures r.createdAt == t.createdAt && r.updatedAt == t.updatedAt
    ensures p.name.Some? ==> r.name == p.name.value
    ensures p.name.None? ==> r.name == t.name
    ensures p.description.Some? ==> r.description == p.description.value
    ensures p.description.None? ==> r.description == t.description
    ensures p.numberOfBeds.Some? ==> r.numberOfBeds == p.numberOfBeds.value
    ensures p.numberOfBeds.None? ==> r.numberOfBeds == t.numberOfBeds
    ensures p.bedType.Some? ==> r.bedType == p.bedType.value
    ensures p.bedType.None? ==> r.bedType == t.bedType
    ensures p.maxOccupancy.Some? ==> r.maxOccupancy == p.maxOccupancy.value
    ensures p.maxOccupancy.None? ==> r.maxOccupancy == t.maxOccupancy
    ensures p.basePrice.Some? ==> r.basePrice == p.basePrice.value
    ensures p.basePrice.None? ==> r.basePrice == t.basePrice
  {
    t.(name := p.name.GetOr(t.name),
       description := p.description.GetOr(t.description),
       numberOfBeds := p.numberOfBeds.GetOr(t.numberOfBeds),
       bedType := p.bedType.GetOr(t.bedType),
       maxOccupancy := p.maxOccupancy.GetOr(t.maxOccupancy),
       basePrice := p.basePrice.GetOr(t.basePrice))
  }

  /** Applying the same patch a second time changes nothing more. */
  lemma PatchedIdempotent(t: RoomType, p: RoomTypePatch)
    ensures Patched(Patched(t, p), p) == Patched(t, p)
  {
  }

  /**
   * A partial update never moves a room type to another hotel: the listing
   * of every hotel keeps the same ids.
   */
  lemma PatchKeepsHotelListings(rows: map<Id, RoomType>, id: Id, p: RoomTypePatch, hotelId: Id)
    requires Keyed(rows) && id in rows
    ensures IdsOf(ListRoomTypesByHotelID(rows[id := Patched(rows[id], p)], hotelId, None).value)
         == IdsOf(ListRoomTypesByHotelID(rows, hotelId, None).value)
  {
    var rows' := rows[id := Patched(rows[id], p)];
    var before := ListRoomTypesByHotelID(rows, hotelId, None).value;
    var after := ListRoomTypesByHotelID(rows', hotelId, None).value;
    forall i | i in IdsOf(after)
      ensures i in IdsOf(before)
    {
      var u :| u in after && u.id == i;
      var k :| k in rows' && rows'[k] == u;
      if k == id {
        assert rows[id] in before;
      } else {
        assert u in before;
      }
    }
    forall i | i in IdsOf(before)
      ensures i in IdsOf(after)
    {
      var u :| u in before && u.id == i;
      var k :| k in rows && rows[k] == u;
      assert rows'[k] in after;
    }
  }

  // ---------------------------------------------------------------------
  // The room-type service: operations that write
  // ---------------------------------------------------------------------

  class RoomTypeService {
    const repo: RoomTypeRepository

    constructor (repo: RoomTypeRepository)
      ensures this.repo == repo
    {
      this.repo := repo;
    }

    /**
     * CreateRoomType: ask the hotel validator about `r.hotelId` first. Its
     * error is returned unchanged, a false answer is "hotel does not exist",
     * and only a true answer reaches Save.
     */
    method CreateRoomType(r: RoomType, hotelValidator: HotelValidator, saveFault: Option<Fault>)
      returns (result: Reply<Option<RoomType>>)
      requires repo.Valid()
      modifies repo
      ensures repo.Valid()
      ensures result.value.Some? <==> result.err.None?
      ensures hotelValidator(r.hotelId).err.Some? ==>
        && result.err == hotelValidator(r.hotelId).err
        && repo.rows == old(repo.rows) && repo.log == old(repo.log)
      ensures hotelValidator(r.hotelId).err.None? && !hotelValidator(r.hotelId).value ==>
        && result.err == Some(Message(HotelDoesNotExist))
        && repo.rows == old(repo.rows) && repo.log == old(repo.log)
      ensures hotelValidator(r.hotelId) == Reply(true, None) ==>
        && repo.log == old(repo.log) + [Insert(r)]
        && result.err == InsertError(old(repo.rows), r.id, saveFault)
        && repo.rows == (if result.err.None? then old(repo.rows)[r.id := r] else old(repo.rows))
        && (result.err.None? ==> result.value == Some(r))
    {
      var hotelExists := hotelValidator(r.hotelId);
      if hotelExists.err.Some? {
        return Reply(None, hotelExists.err);
      }
      if !hotelExists.value {
        return Reply(None, Some(Message(HotelDoesNotExist)));
      }
      var err := repo.Save(r, saveFault);
      if err.Some? {
        return Reply(None, err);
      }
      return Reply(Some(r), None);
    }

    /**
     * UpdatePartiallyRoomType: load, check that the row belongs to the
     * hotel, overwrite the supplied fields of the loaded row one by one,
     * write the whole row back. The three early exits do not reach Update.
     */
    method UpdatePartiallyRoomType(
      roomTypeId: Id, hotelId: Id,
      name: Option<string>, description: Option<string>, numberOfBeds: Option<int>,
      bedType: Option<string>, maxOccupancy: Option<int>, basePrice: Option<Decimal>,
      getFault: Option<Fault>, updateFault: Option<Fault>)
      returns (result: Reply<Option<RoomType>>)
      requires repo.Valid()
      modifies repo
      ensures repo.Valid()
      ensures result.value.Some? <==> result.err.None?
      ensures getFault.Some? ==>
        result.err == FaultError(getFault) && repo.rows == old(repo.rows) && repo.log == old(repo.log)
      ensures getFault.None? && roomTypeId !in old(repo.rows) ==>
        result.err == Some(ErrRoomTypeNotFound) && repo.rows == old(repo.rows) && repo.log == old(repo.log)
      ensures getFault.None? && roomTypeId in old(repo.rows) && old(repo.rows)[roomTypeId].hotelId != hotelId ==>
        result.err == Some(Message(RoomNotOfHotel)) && repo.rows == old(repo.rows) && repo.log == old(repo.log)
      ensures getFault.None? && roomTypeId in old(repo.rows) && old(repo.rows)[roomTypeId].hotelId == hotelId ==>
        var patched := Patched(old(repo.rows)[roomTypeId],
                               RoomTypePatch(name, description, numberOfBeds, bedType, maxOccupancy, basePrice));
        && repo.log == old(repo.log) + [Overwrite(patched)]
        && result.err == FaultError(updateFault)
        && repo.rows == (if updateFault.None? then old(repo.rows)[roomTypeId := patched] else old(repo.rows))
        && (updateFault.None? ==> result.value == Some(patched))
    {
      var found := GetByID(repo.rows, roomTypeId, getFault);
      if found.err.Some? {
        return Reply(None, found.err);
      }
      if found.value.None? {
        return Reply(None, Some(ErrRoomTypeNotFound));
      }
      var roomType := found.value.value;
      if roomType.hotelId != hotelId {
        return Reply(None, Some(Message(RoomNotOfHotel)));
      }
      if name.Some? {
        roomType := roomType.(name := name.value);
      }
      if description.Some? {
        roomType := roomType.(description := description.value);
      }
      if numberOfBeds.Some? {
        roomType := roomType.(numberOfBeds := numberOfBeds.value);
      }
      if bedType.Some? {
        roomType := roomType.(bedType := bedType.value);
      }
      if maxOccupancy.Some? {
        roomType := roomType.(maxOccupancy := maxOccupancy.value);
      }
      if basePrice.Some? {
        roomType := roomType.(basePrice := basePrice.value);
      }
      var err := repo.Update(roomType, updateFault);
      if err.Some? {
        return Reply(None, err);
      }
      return Reply(Some(roomType), None);
    }
  }
}
