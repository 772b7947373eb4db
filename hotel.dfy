/**
 * Package hotel: the Hotel record and its constructor, the hotels table over
 * an in-memory map, and the hotel service (list, fetch, create, partial
 * update, and the existence check offered to the other packages).
 */
module Hotels {
  import opened Core

  datatype Hotel = Hotel(
    id: Id,
    createdAt: Time,
    updatedAt: Time,
    name: string,
    address: string,
    country: string,
    state: string,
    status: string,
    description: string)

  /** The message GetHotelByID puts in place of every lookup failure. */
  const UnexpectedFetchError: string := "unexpected error fetching hotel"

  /**
   * NewHotel. `now` is the single clock reading and `generated` is what the
   * identifier generator returned.
   */
  function NewHotel(
    name: string, address: string, country: string, state: string,
    status: string, description: string,
    now: Time, generated: Reply<Id>): (r: Reply<Option<Hotel>>)
    ensures r.err == generated.err
    ensures r.value.Some? <==> generated.err.None?
    ensures r.value.Some? ==>
      && r.value.value.id == generated.value
      && r.value.value.createdAt == r.value.value.updatedAt == now
      && r.value.value.name == name && r.value.value.address == address
      && r.value.value.country == country && r.value.value.state == state
      && r.value.value.status == status && r.value.value.description == description
  {
    if generated.err.Some? then Reply(None, generated.err)
    else Reply(Some(Hotel(generated.value, now, now, name, address, country, state, status, description)), None)
  }

  // ---------------------------------------------------------------------
  // The hotels table
  // ---------------------------------------------------------------------

  /** Every row is stored under its own identifier. */
  ghost predicate Keyed(rows: map<Id, Hotel>) {
    forall id :: id in rows ==> rows[id].id == id
  }

  class HotelRepository {
    var rows: map<Id, Hotel>
    /** The writes requested so far, in order, whether or not they succeeded. */
    ghost var log: seq<Write<Hotel>>

    ghost predicate Valid()
      reads this
    {
      Keyed(rows)
    }

    constructor ()
      ensures Valid() && rows == map[] && log == []
    {
      rows := map[];
      log := [];
    }

    /** INSERT of a new row. */
    method Save(hotel: Hotel, fault: Option<Fault>) returns (err: Option<Error>)
      requires Valid()
      modifies this
      ensures Valid()
      ensures log == old(log) + [Insert(hotel)]
      ensures err == InsertError(old(rows), hotel.id, fault)
      ensures rows == if err.None? then old(rows)[hotel.id := hotel] else old(rows)
    {
      log := log + [Insert(hotel)];
      err := InsertError(rows, hotel.id, fault);
      if err.None? {
        rows := rows[hotel.id := hotel];
      }
    }

    /** UPDATE of the whole row whose id is `hotel.id`; no matching row is not an error. */
    method Update(hotel: Hotel, fault: Option<Fault>) returns (err: Option<Error>)
      requires Valid()
      modifies this
      ensures Valid()
      ensures log == old(log) + [Overwrite(hotel)]
      ensures err == FaultError(fault)
      ensures rows == if err.None? && hotel.id in old(rows) then old(rows)[hotel.id := hotel] else old(rows)
    {
      log := log + [Overwrite(hotel)];
      err := FaultError(fault);
      if err.None? && hotel.id in rows {
        rows := rows[hotel.id := hotel];
      }
    }
  }

  /** SELECT of every row; the driver's failure gives no rows. */
  function GetAll(rows: map<Id, Hotel>, fault: Option<Fault>): (r: Reply<set<Hotel>>)
    ensures r.err == FaultError(fault)
    ensures r.value == if fault.None? then rows.Values else {}
  {
    if fault.Some? then Reply({}, FaultError(fault)) else Reply(rows.Values, None)
  }

  // ---------------------------------------------------------------------
  // The hotel service: read-only operations
  // ---------------------------------------------------------------------

  /** ListHotels: all rows, or an empty collection together with the store's error. */
  function ListHotels(rows: map<Id, Hotel>, fault: Option<Fault>): (r: Reply<set<Hotel>>)
    ensures r.err == FaultError(fault)
    ensures fault.Some? ==> r.value == {}
    ensures fault.None? ==> forall h :: h in r.value <==> exists id :: id in rows && rows[id] == h
  {
    var all := GetAll(rows, fault);
    if all.err.Some? then Reply({}, all.err) else Reply(all.value, None)
  }

  /**
   * GetHotelByID: any store failure becomes one generic error; an absent row
   * gives neither a hotel nor an error.
   */
  function GetHotelByID(rows: map<Id, Hotel>, id: Id, fault: Option<Fault>): (r: Reply<Option<Hotel>>)
    ensures fault.Some? ==> r == Reply(None, Some(Message(UnexpectedFetchError)))
    ensures fault.None? ==> r.err.None?
    ensures fault.None? ==> (r.value.Some? <==> id in rows)
    ensures r.value.Some? ==> id in rows && r.value.value == rows[id]
  {
    var found := GetByID(rows, id, fault);
    if found.err.Some? then Reply(None, Some(Message(UnexpectedFetchError)))
    else Reply(found.value, None)
  }

  /**
   * ValidateHotelExists: true exactly when the row is there; a store failure
   * is passed on with false, so "absent" and "could not tell" stay distinct.
   */
  function ValidateHotelExists(rows: map<Id, Hotel>, id: Id, fault: Option<Fault>): (r: Reply<bool>)
    ensures r.err == FaultError(fault)
    ensures r.value <==> fault.None? && id in rows
  {
    var found := GetByID(rows, id, fault);
    if found.err.Some? then Reply(false, found.err)
    else Reply(found.value.Some?, None)
  }

  /** The HotelValidator capability the hotel service hands to the other services. */
  function HotelValidatorOf(rows: map<Id, Hotel>, fault: Option<Fault>): (v: HotelValidator)
    ensures forall id :: v(id).err == FaultError(fault)
    ensures forall id :: v(id).value <==> fault.None? && id in rows
  {
    id => ValidateHotelExists(rows, id, fault)
  }

  /** The hotels ListHotels returns are exactly those GetHotelByID finds under their own ids. */
  lemma ListedIffFetched(rows: map<Id, Hotel>, h: Hotel)
    requires Keyed(rows)
    ensures h in ListHotels(rows, None).value <==> GetHotelByID(rows, h.id, None) == Reply(Some(h), None)
  {
    if h in ListHotels(rows, None).value {
      var id :| id in rows && rows[id] == h;
      assert id == h.id;
    }
  }

  /**
   * The existence check agrees with the fetch when the store answers, and
   * keeps the store's own error where the fetch replaces it.
   */
  lemma ValidatorAgreesWithFetch(rows: map<Id, Hotel>, id: Id, fault: Option<Fault>)
    ensures fault.None? ==> ValidateHotelExists(rows, id, fault) == Reply(GetHotelByID(rows, id, fault).value.Some?, None)
    ensures fault.Some? ==> ValidateHotelExists(rows, id, fault).err != GetHotelByID(rows, id, fault).err
  {
  }

  /**
   * As written, an absent hotel is reported as "no hotel, no error"
   * (the caller then renders a nil hotel).
   */
  lemma AbsentHotelIsNoError(rows: map<Id, Hotel>, id: Id)
    requires id !in rows
    ensures GetHotelByID(rows, id, None) == Reply(None, None)
  {
  }

  /** GetHotelByID as evidently intended: an absent row is ErrHotelNotFound. */
  function GetHotelByIDOrNotFound(rows: map<Id, Hotel>, id: Id, fault: Option<Fault>): (r: Reply<Option<Hotel>>)
    ensures r.value.None? <==> r.err.Some?
    ensures fault.None? && id !in rows ==> r.err == Some(ErrHotelNotFound)
    ensures fault.None? && id in rows ==> r == Reply(Some(rows[id]), None)
    ensures !(fault.None? && id !in rows) ==> r == GetHotelByID(rows, id, fault)
  {
    var r := GetHotelByID(rows, id, fault);
    if r.err.None? && r.value.None? then Reply(None, Some(ErrHotelNotFound)) else r
  }

  // ---------------------------------------------------------------------
  // Partial update
  // ---------------------------------------------------------------------

  /** The optional fields of a partial update; `None` is a field that was not supplied. */
  datatype HotelPatch = HotelPatch(
    name: Option<string>,
    address: Option<string>,
    status: Option<string>,
    description: Option<string>)

  /**
   * The row UpdatePartiallyHotel writes back, as its assignments leave it:
   * a supplied description is assigned to `status`, never to `description`.
   */
  function Patched(h: Hotel, p: HotelPatch): (r: Hotel)
    ensures r.id == h.id && r.createdAt == h.createdAt && r.updatedAt == h.updatedAt
    ensures r.country == h.country && r.state == h.state
    ensures r.description == h.description
    ensures p.name.Some? ==> r.name == p.name.value
    ensures p.name.None? ==> r.name == h.name
    ensures p.address.Some? ==> r.address == p.address.value
    ensures p.address.None? ==> r.address == h.address
    ensures p.description.Some? ==> r.status == p.description.value
    ensures p.description.None? && p.status.Some? ==> r.status == p.status.value
    ensures p.description.None? && p.status.None? ==> r.status == h.status
  {
    h.(name := p.name.GetOr(h.name),
       address := p.address.GetOr(h.address),
       status := p.description.GetOr(p.status.GetOr(h.status)))
  }

  /** Applying the same patch a second time changes nothing more. */
  lemma PatchedIdempotent(h: Hotel, p: HotelPatch)
    ensures Patched(Patched(h, p), p) == Patched(h, p)
  {
  }

  /** As written, a supplied description never reaches `description`: it replaces the status. */
  lemma DescriptionIsWrittenToStatus()
    ensures exists h: Hotel, p: HotelPatch ::
      && p.description.Some?
      && Patched(h, p).description != p.description.value
      && Patched(h, p).status == p.description.value
  {
    var h := Hotel(Id(0), Time(0), Time(0), "Grand Plaza", "Main St 1", "CL", "RM", "open", "old");
    var p := HotelPatch(None, None, None, Some("new"));
    assert Patched(h, p).description == "old";
  }

  /** The partial update as evidently intended: every supplied field, description included, goes to its own field. */
  function PatchedAsIntended(h: Hotel, p: HotelPatch): (r: Hotel)
    ensures r.id == h.id && r.createdAt == h.createdAt && r.updatedAt == h.updatedAt
    ensures r.country == h.country && r.state == h.state
    ensures r.name == (if p.name.Some? then p.name.value else h.name)
    ensures r.address == (if p.address.Some? then p.address.value else h.address)
    ensures r.status == (if p.status.Some? then p.status.value else h.status)
    ensures r.description == (if p.description.Some? then p.description.value else h.description)
  {
    var h := if p.name.Some? then h.(name := p.name.value) else h;
    var h := if p.address.Some? then h.(address := p.address.value) else h;
    var h := if p.status.Some? then h.(status := p.status.value) else h;
    if p.description.Some? then h.(description := p.description.value) else h
  }

  /** The two differ only on patches that carry a description. */
  lemma AsIntendedAgreesWithoutDescription(h: Hotel, p: HotelPatch)
    ensures p.description.None? ==> PatchedAsIntended(h, p) == Patched(h, p)
    ensures PatchedAsIntended(PatchedAsIntended(h, p), p) == PatchedAsIntended(h, p)
  {
  }

  // ---------------------------------------------------------------------
  // The hotel service: operations that write
  // ---------------------------------------------------------------------

  class HotelService {
    const repo: HotelRepository

    constructor (repo: HotelRepository)
      ensures this.repo == repo
    {
      this.repo := repo;
    }

    /** CreateHotel: one Save; on success the same hotel is returned and can be fetched back. */
    method CreateHotel(hotel: Hotel, saveFault: Option<Fault>) returns (r: Reply<Option<Hotel>>)
      requires repo.Valid()
      modifies repo
      ensures repo.Valid()
      ensures repo.log == old(repo.log) + [Insert(hotel)]
      ensures r.err == InsertError(old(repo.rows), hotel.id, saveFault)
      ensures r.err.Some? ==> r.value.None? && repo.rows == old(repo.rows)
      ensures r.err.None? ==> r.value == Some(hotel) && repo.rows == old(repo.rows)[hotel.id := hotel]
      ensures r.err.None? ==> GetHotelByID(repo.rows, hotel.id, None) == Reply(Some(hotel), None)
    {
      var err := repo.Save(hotel, saveFault);
      if err.Some? {
        return Reply(None, err);
      }
      return Reply(Some(hotel), None);
    }

    /**
     * UpdatePartiallyHotel: load, overwrite the supplied fields of the loaded
     * row one by one, write the whole row back. A failed lookup returns
     * neither a hotel nor an error; an absent row returns ErrHotelNotFound;
     * neither of these reaches Update.
     */
    method UpdatePartiallyHotel(
      id: Id,
      name: Option<string>, address: Option<string>,
      status: Option<string>, description: Option<string>,
      getFault: Option<Fault>, updateFault: Option<Fault>)
      returns (r: Reply<Option<Hotel>>)
      requires repo.Valid()
      modifies repo
      ensures repo.Valid()
      ensures getFault.Some? ==>
        r == Reply(None, None) && repo.rows == old(repo.rows) && repo.log == old(repo.log)
      ensures getFault.None? && id !in old(repo.rows) ==>
        r == Reply(None, Some(ErrHotelNotFound)) && repo.rows == old(repo.rows) && repo.log == old(repo.log)
      ensures getFault.None? && id in old(repo.rows) ==>
        var patched := Patched(old(repo.rows)[id], HotelPatch(name, address, status, description));
        && repo.log == old(repo.log) + [Overwrite(patched)]
        && (updateFault.Some? ==> r == Reply(None, FaultError(updateFault)) && repo.rows == old(repo.rows))
        && (updateFault.None? ==> r == Reply(Some(patched), None) && repo.rows == old(repo.rows)[id := patched])
    {
      var found := GetByID(repo.rows, id, getFault);
      if found.err.Some? {
        return Reply(None, None);
      }
      if found.value.None? {
        return Reply(None, Some(ErrHotelNotFound));
      }
      var hotel := found.value.value;
      if name.Some? {
        hotel := hotel.(name := name.value);
      }
      if address.Some? {
        hotel := hotel.(address := address.value);
      }
      if status.Some? {
        hotel := hotel.(status := status.value);
      }
      if description.Some? {
        hotel := hotel.(status := description.value);
      }
      var err := repo.Update(hotel, updateFault);
      if err.Some? {
        return Reply(None, err);
      }
      return Reply(Some(hotel), None);
    }
  }
}
