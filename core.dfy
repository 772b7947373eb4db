/**
 * Types shared by the hotel, room-type and room packages: identifiers,
 * timestamps, the opaque failures of the code outside the model, the
 * service-layer errors, Go's two-value `(result, error)` return, and the
 * single-method existence-check capability of internal/core.
 */
module Core {

  datatype Option<+T> = None | Some(value: T) {
    /** The wrapped value, or `default` when there is none (Go's `if p != nil { x = *p }`). */
    function GetOr(default: T): (r: T)
      ensures Some? ==> r == value
      ensures None? ==> r == default
    {
      match this
      case Some(v) => v
      case None => default
    }
  }

  /** A time-ordered 128-bit identifier; the model only compares identifiers for equality. */
  datatype Id = Id(bits: nat)

  /** A UTC instant read from the clock; it is only copied. */
  datatype Time = Time(unixNanos: int)

  /** An exact decimal amount (coefficient times ten to the exponent); it is only copied, never computed with. */
  datatype Decimal = Decimal(coefficient: int, exponent: int)

  /**
   * A failure reported by code outside the model: the database driver or
   * the identifier generator. `DuplicateKey` is the one the store raises by
   * itself, when a row is inserted under an identifier that is already taken.
   */
  datatype Fault = Unavailable(code: nat) | DuplicateKey(key: Id)

  /** The errors the service layer returns. */
  datatype Error =
    | External(cause: Fault)   // passed through from the store or the generator
    | ErrHotelNotFound         // sentinel error of package hotel
    | ErrRoomTypeNotFound      // sentinel error of package roomtype
    | Message(text: string)    // errors.New(text)

  /** A Go return pair `(value, err)`; a nil pointer result is `None` inside `value`. */
  datatype Reply<+T> = Reply(value: T, err: Option<Error>)

  /** One write the service layer asked a repository to perform, in call order. */
  datatype Write<+R> = Insert(row: R) | Overwrite(row: R)

  /**
   * The `HotelValidator` capability: what `ValidateHotelExists` answers for
   * each hotel identifier at the moment of the call.
   */
  type HotelValidator = Id -> Reply<bool>

  /** The error a store call reports for its fault outcome, if any. */
  function FaultError(fault: Option<Fault>): (e: Option<Error>)
    ensures e.None? <==> fault.None?
    ensures fault.Some? ==> e == Some(External(fault.value))
  {
    match fault
    case None => None
    case Some(f) => Some(External(f))
  }

  /**
   * The error an insert reports: the injected fault if there is one, and
   * otherwise a duplicate-key failure when `key` is already stored (the
   * identifier is the table's primary key).
   */
  function InsertError<R>(rows: map<Id, R>, key: Id, fault: Option<Fault>): (e: Option<Error>)
    ensures e.None? <==> fault.None? && key !in rows
    ensures fault.Some? ==> e == FaultError(fault)
    ensures fault.None? && key in rows ==> e == Some(External(DuplicateKey(key)))
  {
    if fault.Some? then FaultError(fault)
    else if key in rows then Some(External(DuplicateKey(key)))
    else None
  }

  /**
   * The repositories' SELECT by id: a fault gives the fault, a missing row
   * an explicit absence (nil, nil) rather than an error, and a present id
   * its row.
   */
  function GetByID<R>(rows: map<Id, R>, id: Id, fault: Option<Fault>): (r: Reply<Option<R>>)
    ensures r.err == FaultError(fault)
    ensures r.value.Some? <==> fault.None? && id in rows
    ensures r.value.Some? ==> r.value.value == rows[id]
  {
    if fault.Some? then Reply(None, FaultError(fault))
    else if id in rows then Reply(Some(rows[id]), None)
    else Reply(None, None)
  }
}
