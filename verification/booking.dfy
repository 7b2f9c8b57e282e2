/**
  The booking record of the room-booking backend: its schema validators, its
  status lifecycle, the room-availability test and the confirmation step.

  Dates are whole day numbers (midnight already applied), so the hour
  normalisation the source performs before every comparison and before every
  save is the identity here. "Today" is passed in by the caller.
*/
module Bookings {
  import opened Wrappers
  import opened Text
  import opened Documents

  type Day = int
  type BookingId = nat

  // ---------------------------------------------------------------------------
  // Status
  // ---------------------------------------------------------------------------

  datatype Status = Pending | Confirmed | Cancelled {

    /** The statuses that occupy a room: the `$in` list of the overlap query. */
    predicate IsActive() {
      this == Pending || this == Confirmed
    }

    /** The enum string stored in the document. */
    function Name(): string {
      match this
      case Pending => "pending"
      case Confirmed => "confirmed"
      case Cancelled => "cancelled"
    }
  }

  /** The `enum` validator on `status`: one of the three names, or nothing. */
  function ParseStatus(s: string): (r: Option<Status>)
    ensures r.Some? ==> r.value.Name() == s
    ensures r.None? <==> (s != "pending" && s != "confirmed" && s != "cancelled")
  {
    if s == "pending" then Some(Pending)
    else if s == "confirmed" then Some(Confirmed)
    else if s == "cancelled" then Some(Cancelled)
    else None
  }

  /** Every status survives being written out as its name and read back. */
  lemma ParseStatusName(st: Status)
    ensures ParseStatus(st.Name()) == Some(st)
  {
  }

  /** A status left unset takes the schema default `pending`. */
  function StatusOrDefault(s: Option<string>): (r: Option<Status>)
    ensures s.None? ==> r == Some(Pending)
    ensures s.Some? ==> r == ParseStatus(s.value)
  {
    match s
    case None => Some(Pending)
    case Some(name) => ParseStatus(name)
  }

  // ---------------------------------------------------------------------------
  // Records
  // ---------------------------------------------------------------------------

  /** A stored booking. */
  datatype Booking = Booking(
    id: BookingId,
    roomId: string,
    customerName: string,
    customerAge: int,
    customerAddress: string,
    mobileNo: string,
    aadharNo: string,
    checkIn: Day,
    checkOut: Day,
    status: Status)

  /**
    The fields of a booking request before validation. A missing text field is
    the empty text (the `required` validator rejects both alike); a missing
    number, date or status is `None`.
  */
  datatype Draft = Draft(
    roomId: string,
    customerName: string,
    customerAge: Option<int>,
    customerAddress: string,
    mobileNo: string,
    aadharNo: string,
    checkIn: Option<Day>,
    checkOut: Option<Day>,
    status: Option<string>)

  // ---------------------------------------------------------------------------
  // Field validators
  // ---------------------------------------------------------------------------

  /** `customer_mobileNo` matches `^[0-9]{10}$`. */
  predicate ValidMobileNo(s: string) {
    IsDigitString(s, 10)
  }

  /** `customer_aadharno` matches `^[0-9]{12}$`. */
  predicate ValidAadharNo(s: string) {
    IsDigitString(s, 12)
  }

  /** `customer_age` has `min: 18`. */
  predicate IsAdult(age: int) {
    age >= 18
  }

  /** `customer_name` has `trim: true` and `minlength: 2`. */
  predicate ValidCustomerName(raw: string) {
    |Trim(raw)| >= 2
  }

  /** The check-in day is today or later. */
  predicate CheckInNotPast(checkIn: Day, today: Day) {
    checkIn >= today
  }

  /** The check-out day is strictly after the check-in day, which must be present. */
  predicate CheckOutAfterCheckIn(checkIn: Option<Day>, checkOut: Day) {
    checkIn.Some? && checkOut > checkIn.value
  }

  /** An accepted mobile number is the ten-digit zero-padded form of a number below 10^10. */
  lemma MobileNoIsTenDigitNumber(s: string)
    ensures ValidMobileNo(s) <==> exists v: nat :: v < Pow10(10) && s == Decimal(v, 10)
  {
    DigitStringIffDecimal(s, 10);
  }

  /** An accepted Aadhar number is the twelve-digit zero-padded form of a number below 10^12. */
  lemma AadharNoIsTwelveDigitNumber(s: string)
    ensures ValidAadharNo(s) <==> exists v: nat :: v < Pow10(12) && s == Decimal(v, 12)
  {
    DigitStringIffDecimal(s, 12);
  }

  /** A missing check-in makes the check-out validator fail whatever the check-out is. */
  lemma CheckOutNeedsCheckIn(checkOut: Day)
    ensures !CheckOutAfterCheckIn(None, checkOut)
  {
  }

  // ---------------------------------------------------------------------------
  // Schema validation
  // ---------------------------------------------------------------------------

  datatype Field =
    | RoomIdField
    | CustomerNameField
    | CustomerAgeField
    | CustomerAddressField
    | MobileNoField
    | AadharNoField
    | CheckInField
    | CheckOutField
    | StatusField

  /** The schema's paths in declaration order. */
  const Fields: seq<Field> := [
    RoomIdField, CustomerNameField, CustomerAgeField, CustomerAddressField,
    MobileNoField, AadharNoField, CheckInField, CheckOutField, StatusField]

  /** `Required`: the `required` validator failed; `Invalid`: the path's other validator failed. */
  datatype Violation = Required | Invalid

  datatype ValidationError = ValidationError(field: Field, violation: Violation)

  /**
    The first validator that fails on one path, if any. The `required` check
    comes first; the other validator runs only on a present value.
  */
  function FieldCheck(d: Draft, today: Day, f: Field): Option<Violation> {
    match f
    case RoomIdField =>
      if d.roomId == "" then Some(Required) else None
    case CustomerNameField =>
      if |Trim(d.customerName)| == 0 then Some(Required)
      else if !ValidCustomerName(d.customerName) then Some(Invalid)
      else None
    case CustomerAgeField =>
      if d.customerAge.None? then Some(Required)
      else if !IsAdult(d.customerAge.value) then Some(Invalid)
      else None
    case CustomerAddressField =>
      if |Trim(d.customerAddress)| == 0 then Some(Required) else None
    case MobileNoField =>
      if d.mobileNo == "" then Some(Required)
      else if !ValidMobileNo(d.mobileNo) then Some(Invalid)
      else None
    case AadharNoField =>
      if d.aadharNo == "" then Some(Required)
      else if !ValidAadharNo(d.aadharNo) then Some(Invalid)
      else None
    case CheckInField =>
      if d.checkIn.None? then Some(Required)
      else if !CheckInNotPast(d.checkIn.value, today) then Some(Invalid)
      else None
    case CheckOutField =>
      if d.checkOut.None? then Some(Required)
      else if !CheckOutAfterCheckIn(d.checkIn, d.checkOut.value) then Some(Invalid)
      else None
    case StatusField =>
      if StatusOrDefault(d.status).None? then Some(Invalid) else None
  }

  /** No path is listed twice. */
  predicate DistinctFields(fields: seq<Field>) {
    forall i, j :: 0 <= i < j < |fields| ==> fields[i] != fields[j]
  }

  /** The errors of the given paths, in order, one per failing path. */
  function CollectErrors(d: Draft, today: Day, fields: seq<Field>): (errs: seq<ValidationError>)
    requires DistinctFields(fields)
    ensures |errs| <= |fields|
    ensures forall e :: e in errs <==> e.field in fields && FieldCheck(d, today, e.field) == Some(e.violation)
    ensures forall i, j :: 0 <= i < j < |errs| ==> errs[i].field != errs[j].field
  {
    if fields == [] then []
    else
      var f := fields[0];
      var rest := CollectErrors(d, today, fields[1..]);
      match FieldCheck(d, today, f)
      case None => rest
      case Some(v) => [ValidationError(f, v)] + rest
  }

  /** Every path of the schema is listed in `Fields`. */
  lemma AllFieldsListed(f: Field)
    ensures f in Fields
  {
    match f
    case RoomIdField => assert Fields[0] == f;
    case CustomerNameField => assert Fields[1] == f;
    case CustomerAgeField => assert Fields[2] == f;
    case CustomerAddressField => assert Fields[3] == f;
    case MobileNoField => assert Fields[4] == f;
    case AadharNoField => assert Fields[5] == f;
    case CheckInField => assert Fields[6] == f;
    case CheckOutField => assert Fields[7] == f;
    case StatusField => assert Fields[8] == f;
  }

  /** Everything schema validation reports about a booking request: one error per failing path. */
  function Errors(d: Draft, today: Day): (errs: seq<ValidationError>)
    ensures forall e :: e in errs <==> FieldCheck(d, today, e.field) == Some(e.violation)
    ensures forall i, j :: 0 <= i < j < |errs| ==> errs[i].field != errs[j].field
  {
    var errs := CollectErrors(d, today, Fields);
    assert forall e: ValidationError :: e in errs <== FieldCheck(d, today, e.field) == Some(e.violation) by {
      forall e: ValidationError | FieldCheck(d, today, e.field) == Some(e.violation) ensures e in errs {
        AllFieldsListed(e.field);
      }
    }
    errs
  }

  /** The requests the schema accepts, field by field. */
  predicate Acceptable(d: Draft, today: Day) {
    && d.roomId != ""
    && ValidCustomerName(d.customerName)
    && d.customerAge.Some? && IsAdult(d.customerAge.value)
    && |Trim(d.customerAddress)| > 0
    && ValidMobileNo(d.mobileNo)
    && ValidAadharNo(d.aadharNo)
    && d.checkIn.Some? && CheckInNotPast(d.checkIn.value, today)
    && d.checkOut.Some? && CheckOutAfterCheckIn(d.checkIn, d.checkOut.value)
    && StatusOrDefault(d.status).Some?
  }

  /** A request with a failing path is not acceptable. */
  lemma FailingFieldRejects(d: Draft, today: Day, f: Field)
    requires FieldCheck(d, today, f).Some?
    ensures !Acceptable(d, today)
  {
    match f
    case RoomIdField =>
    case CustomerNameField =>
    case CustomerAgeField =>
    case CustomerAddressField =>
    case MobileNoField =>
    case AadharNoField =>
    case CheckInField =>
    case CheckOutField =>
    case StatusField =>
  }

  /** A request on which every path passes is acceptable. */
  lemma PassingFieldsAccept(d: Draft, today: Day)
    requires FieldCheck(d, today, RoomIdField).None?
    requires FieldCheck(d, today, CustomerNameField).None?
    requires FieldCheck(d, today, CustomerAgeField).None?
    requires FieldCheck(d, today, CustomerAddressField).None?
    requires FieldCheck(d, today, MobileNoField).None?
    requires FieldCheck(d, today, AadharNoField).None?
    requires FieldCheck(d, today, CheckInField).None?
    requires FieldCheck(d, today, CheckOutField).None?
    requires FieldCheck(d, today, StatusField).None?
    ensures Acceptable(d, today)
  {
  }

  /** A failing path is reported. */
  lemma FailingFieldReported(d: Draft, today: Day, f: Field)
    ensures FieldCheck(d, today, f).Some? ==> Errors(d, today) != []
  {
    match FieldCheck(d, today, f)
    case None =>
    case Some(v) => assert ValidationError(f, v) in Errors(d, today);
  }

  /** Validation reports no error exactly when every field validator accepts. */
  lemma NoErrorsIffAcceptable(d: Draft, today: Day)
    ensures Errors(d, today) == [] <==> Acceptable(d, today)
  {
    var errs := Errors(d, today);
    if errs == [] {
      assert forall f: Field :: FieldCheck(d, today, f).None? by {
        forall f: Field ensures FieldCheck(d, today, f).None? {
          FailingFieldReported(d, today, f);
        }
      }
      PassingFieldsAccept(d, today);
    } else {
      assert errs[0] in errs;
      FailingFieldRejects(d, today, errs[0].field);
    }
  }

  /**
    The stored record a validated request becomes: the trimming setters
    applied, the status defaulted, the store's fresh id attached.
  */
  function FromDraft(d: Draft, id: BookingId): Booking
    requires d.customerAge.Some? && d.checkIn.Some? && d.checkOut.Some?
    requires StatusOrDefault(d.status).Some?
  {
    Booking(id, d.roomId, Trim(d.customerName), d.customerAge.value, Trim(d.customerAddress),
            d.mobileNo, d.aadharNo, d.checkIn.value, d.checkOut.value,
            StatusOrDefault(d.status).value)
  }

  /** What every record that passed validation satisfies, independent of the day it was saved. */
  predicate WellFormed(b: Booking) {
    && b.roomId != ""
    && IsTrimmed(b.customerName) && |b.customerName| >= 2
    && IsAdult(b.customerAge)
    && IsTrimmed(b.customerAddress) && b.customerAddress != ""
    && ValidMobileNo(b.mobileNo)
    && ValidAadharNo(b.aadharNo)
    && b.checkIn < b.checkOut
  }

  /** A request that passes validation is stored as a well-formed record with a non-empty stay. */
  lemma AcceptedDraftIsWellFormed(d: Draft, today: Day, id: BookingId)
    requires Acceptable(d, today)
    ensures WellFormed(FromDraft(d, id))
    ensures FromDraft(d, id).checkIn >= today
    ensures d.status.None? ==> FromDraft(d, id).status == Pending
  {
  }

  /** The values the validators see when a stored record is saved again. */
  function Reloaded(b: Booking): Draft {
    Draft(b.roomId, b.customerName, Some(b.customerAge), b.customerAddress, b.mobileNo, b.aadharNo,
          Some(b.checkIn), Some(b.checkOut), Some(b.status.Name()))
  }

  /**
    Saving a well-formed record again runs every validator, but only the
    check-in one can fail, since it alone depends on the day; the setters then
    leave the record as it was.
  */
  lemma RevalidationChecksOnlyTheDay(b: Booking, today: Day)
    requires WellFormed(b)
    ensures forall f: Field :: f != CheckInField ==> FieldCheck(Reloaded(b), today, f).None?
    ensures Errors(Reloaded(b), today) == [] <==> b.checkIn >= today
    ensures Acceptable(Reloaded(b), today) ==> FromDraft(Reloaded(b), b.id) == b
  {
    TrimmedIsFixed(b.customerName);
    TrimmedIsFixed(b.customerAddress);
    ParseStatusName(b.status);
    NoErrorsIffAcceptable(Reloaded(b), today);
  }

  // ---------------------------------------------------------------------------
  // Room availability
  // ---------------------------------------------------------------------------

  /** An availability request: room, half-open day range, and an optional booking to ignore. */
  datatype Query = Query(roomId: string, checkIn: Day, checkOut: Day, exclude: Option<BookingId>)

  /**
    The overlap test of half-open day ranges: the stored range
    `[in1, out1)` meets the requested `[in2, out2)`.
  */
  predicate Overlaps(in1: Day, out1: Day, in2: Day, out2: Day) {
    in1 < out2 && out1 > in2
  }

  /** The overlap test is symmetric in its two ranges. */
  lemma OverlapSymmetric(in1: Day, out1: Day, in2: Day, out2: Day)
    ensures Overlaps(in1, out1, in2, out2) <==> Overlaps(in2, out2, in1, out1)
  {
  }

  /** The day `d` is a night of the stay `[checkIn, checkOut)`. */
  predicate InStay(d: Day, checkIn: Day, checkOut: Day) {
    checkIn <= d < checkOut
  }

  /** Two non-empty half-open ranges overlap exactly when some day lies in both. */
  lemma OverlapIffSharedDay(in1: Day, out1: Day, in2: Day, out2: Day)
    requires in1 < out1 && in2 < out2
    ensures Overlaps(in1, out1, in2, out2) <==> exists d :: InStay(d, in1, out1) && InStay(d, in2, out2)
  {
    if Overlaps(in1, out1, in2, out2) {
      var d := if in1 < in2 then in2 else in1;
      assert InStay(d, in1, out1) && InStay(d, in2, out2);
    }
  }

  /** A stored booking stands in the way of a request: every condition of the overlap query holds. */
  predicate Blocks(b: Booking, q: Query) {
    && b.roomId == q.roomId
    && b.status.IsActive()
    && (q.exclude.None? || b.id != q.exclude.value)
    && Overlaps(b.checkIn, b.checkOut, q.checkIn, q.checkOut)
  }

  /** The overlap query: the stored bookings that block the request, in store order. */
  function OverlappingBookings(s: seq<Booking>, q: Query): (r: seq<Booking>)
    ensures |r| <= |s|
    ensures forall b :: b in r ==> b in s && Blocks(b, q)
    ensures forall i :: 0 <= i < |s| && Blocks(s[i], q) ==> s[i] in r
  {
    if s == [] then []
    else
      var rest := OverlappingBookings(s[1..], q);
      assert forall b :: b in rest ==> b in s;
      if Blocks(s[0], q) then [s[0]] + rest else rest
  }

  /** The room is free for the request when the overlap query finds nothing. */
  function IsRoomAvailable(s: seq<Booking>, q: Query): (r: bool)
    ensures r <==> forall i :: 0 <= i < |s| ==> !Blocks(s[i], q)
  {
    var found := OverlappingBookings(s, q);
    assert |found| > 0 ==> found[0] in found;
    |found| == 0
  }

  /** A booking that does not block the request leaves availability as it was, wherever it sits. */
  lemma NonBlockingIgnored(s1: seq<Booking>, b: Booking, s2: seq<Booking>, q: Query)
    requires !Blocks(b, q)
    ensures IsRoomAvailable(s1 + [b] + s2, q) == IsRoomAvailable(s1 + s2, q)
  {
    var s, t := s1 + [b] + s2, s1 + s2;
    if IsRoomAvailable(t, q) {
      forall i | 0 <= i < |s| ensures !Blocks(s[i], q) {
        if i < |s1| { assert s[i] == t[i]; }
        else if i > |s1| { assert s[i] == t[i - 1]; }
      }
    }
    if IsRoomAvailable(s, q) {
      forall i | 0 <= i < |t| ensures !Blocks(t[i], q) {
        if i < |s1| { assert t[i] == s[i]; }
        else { assert t[i] == s[i + 1]; }
      }
    }
  }

  /** A cancelled booking never affects availability. */
  lemma CancelledNeverBlocks(s1: seq<Booking>, b: Booking, s2: seq<Booking>, q: Query)
    requires b.status == Cancelled
    ensures IsRoomAvailable(s1 + [b] + s2, q) == IsRoomAvailable(s1 + s2, q)
  {
    NonBlockingIgnored(s1, b, s2, q);
  }

  /** A booking of another room never affects availability. */
  lemma OtherRoomNeverBlocks(s1: seq<Booking>, b: Booking, s2: seq<Booking>, q: Query)
    requires b.roomId != q.roomId
    ensures IsRoomAvailable(s1 + [b] + s2, q) == IsRoomAvailable(s1 + s2, q)
  {
    NonBlockingIgnored(s1, b, s2, q);
  }

  /**
    Touching dates are fine: a booking that checks out on the requested
    check-in day, or checks in on the requested check-out day, never affects
    availability.
  */
  lemma TouchingNeverBlocks(s1: seq<Booking>, b: Booking, s2: seq<Booking>, q: Query)
    requires b.checkOut == q.checkIn || b.checkIn == q.checkOut
    ensures IsRoomAvailable(s1 + [b] + s2, q) == IsRoomAvailable(s1 + s2, q)
  {
    NonBlockingIgnored(s1, b, s2, q);
  }

  /**
    An active booking of the room that shares a day with the request makes the
    room unavailable, unless it is the excluded one.
  */
  lemma SharedDayMakesUnavailable(s: seq<Booking>, i: nat, q: Query, day: Day)
    requires i < |s|
    requires s[i].roomId == q.roomId && s[i].status.IsActive()
    requires q.exclude.None? || q.exclude.value != s[i].id
    requires InStay(day, s[i].checkIn, s[i].checkOut) && InStay(day, q.checkIn, q.checkOut)
    ensures !IsRoomAvailable(s, q)
  {
    assert Blocks(s[i], q);
  }

  /** Requesting exactly the non-empty range of an active booking of the room, without exclusion, finds the room taken. */
  lemma IdenticalRangeUnavailable(s: seq<Booking>, i: nat)
    requires i < |s| && s[i].status.IsActive() && s[i].checkIn < s[i].checkOut
    ensures !IsRoomAvailable(s, Query(s[i].roomId, s[i].checkIn, s[i].checkOut, None))
  {
    SharedDayMakesUnavailable(s, i, Query(s[i].roomId, s[i].checkIn, s[i].checkOut, None), s[i].checkIn);
  }

  /** Excluding a booking can only make a room more available. */
  lemma ExcludeOnlyWidens(s: seq<Booking>, q: Query, x: BookingId)
    requires IsRoomAvailable(s, q.(exclude := None))
    ensures IsRoomAvailable(s, q.(exclude := Some(x)))
  {
    forall i | 0 <= i < |s| ensures !Blocks(s[i], q.(exclude := Some(x))) {
      assert !Blocks(s[i], q.(exclude := None));
    }
  }

  /** Identifiers are unique in the store. */
  predicate DistinctIds(s: seq<Booking>) {
    forall i, j :: 0 <= i < j < |s| ==> s[i].id != s[j].id
  }

  /**
    Excluding a stored booking's own id ignores that booking and only it:
    the room is available exactly when no other booking blocks the request.
  */
  lemma ExcludeSelf(s: seq<Booking>, i: nat, q: Query)
    requires DistinctIds(s) && i < |s| && q.exclude == Some(s[i].id)
    ensures !Blocks(s[i], q)
    ensures IsRoomAvailable(s, q) <==>
      forall j :: 0 <= j < |s| && j != i ==> !Blocks(s[j], q.(exclude := None))
  {
    if forall j :: 0 <= j < |s| && j != i ==> !Blocks(s[j], q.(exclude := None)) {
      forall j | 0 <= j < |s| ensures !Blocks(s[j], q) {
        if j != i { assert !Blocks(s[j], q.(exclude := None)); }
      }
    }
    if IsRoomAvailable(s, q) {
      forall j | 0 <= j < |s| && j != i ensures !Blocks(s[j], q.(exclude := None)) {
        assert !Blocks(s[j], q);
        assert s[j].id != s[i].id by {
          if j < i { assert s[j].id != s[i].id; } else { assert s[i].id != s[j].id; }
        }
      }
    }
  }

  // ---------------------------------------------------------------------------
  // Confirmation
  // ---------------------------------------------------------------------------

  /**
    Why a confirmation fails: the booking is not pending; another booking
    now holds the room; or the save that records the new status rejects the
    document because its check-in day has passed.
  */
  datatype ConfirmError = NotPending | NoLongerAvailable | CheckInPassed {
    /** The message of the error the source raises. */
    function Message(): string {
      match this
      case NotPending => "Can only confirm pending bookings"
      case NoLongerAvailable => "Room is no longer available for these dates"
      case CheckInPassed => "Check-in date must be in the future"
    }
  }

  /** The re-check a booking runs on itself: its own room and dates, its own id excluded. */
  function RecheckQuery(b: Booking): Query {
    Query(b.roomId, b.checkIn, b.checkOut, Some(b.id))
  }

  /** Two distinct bookings that may not coexist: same room, both active, overlapping stays. */
  predicate Conflict(b: Booking, c: Booking) {
    && b.roomId == c.roomId
    && b.status.IsActive() && c.status.IsActive()
    && Overlaps(b.checkIn, b.checkOut, c.checkIn, c.checkOut)
  }

  /** No two confirmed bookings of a room overlap. */
  predicate ConfirmedDisjoint(s: seq<Booking>) {
    forall i, j :: 0 <= i < |s| && 0 <= j < |s| && i != j && s[i].status == Confirmed && s[j].status == Confirmed
      ==> !Conflict(s[i], s[j])
  }

  /** No two active bookings of a room overlap. */
  predicate ActiveDisjoint(s: seq<Booking>) {
    forall i, j :: 0 <= i < |s| && 0 <= j < |s| && i != j ==> !Conflict(s[i], s[j])
  }

  /**
    The outcome of confirming the booking at position `i` on day `today`, and
    the store afterwards. Saving the confirmed document runs schema validation
    again; of the validators, only the check-in one depends on the day, and
    every stored record passed the others when it was created.
  */
  function ConfirmStep(s: seq<Booking>, i: nat, today: Day): (Result<Booking, ConfirmError>, seq<Booking>)
    requires i < |s|
  {
    var b := s[i];
    if b.status != Pending then (Failure(NotPending), s)
    else if !IsRoomAvailable(s, RecheckQuery(b)) then (Failure(NoLongerAvailable), s)
    else if !CheckInNotPast(b.checkIn, today) then (Failure(CheckInPassed), s)
    else
      var c := b.(status := Confirmed);
      (Success(c), s[i := c])
  }

  /**
    Confirmation succeeds exactly when the booking is pending, no other
    active booking of its room overlaps its stay, and its check-in day has
    not passed; each failure carries the source's message and leaves the
    store as it was; a success changes that booking's status to confirmed
    and nothing else.
  */
  lemma ConfirmOutcome(s: seq<Booking>, i: nat, today: Day)
    requires DistinctIds(s) && i < |s| && WellFormed(s[i])
    ensures var (r, t) := ConfirmStep(s, i, today);
      var free := forall j :: 0 <= j < |s| && j != i ==> !Conflict(s[i], s[j]);
      && (r.Success? <==> s[i].status == Pending && free && s[i].checkIn >= today)
      && (s[i].status == Pending && free ==>
            (r.Success? <==> Errors(Reloaded(s[i].(status := Confirmed)), today) == []))
      && (r.Failure? && r.error.Message() == "Can only confirm pending bookings" <==> s[i].status != Pending)
      && (r.Failure? && r.error.Message() == "Room is no longer available for these dates" <==>
            s[i].status == Pending && !free)
      && (r.Failure? && r.error.Message() == "Check-in date must be in the future" <==>
            s[i].status == Pending && free && s[i].checkIn < today)
      && (r.Failure? ==> t == s)
      && (r.Success? ==> t == s[i := s[i].(status := Confirmed)] && r.value == t[i])
  {
    RevalidationChecksOnlyTheDay(s[i].(status := Confirmed), today);
    var q := RecheckQuery(s[i]);
    ExcludeSelf(s, i, q);
    if s[i].status == Pending {
      forall j | 0 <= j < |s| && j != i
        ensures !Blocks(s[j], q.(exclude := None)) <==> !Conflict(s[i], s[j])
      {
        OverlapSymmetric(s[i].checkIn, s[i].checkOut, s[j].checkIn, s[j].checkOut);
      }
    }
  }

  /** Confirmation keeps confirmed bookings pairwise disjoint. */
  lemma ConfirmPreservesConfirmedDisjoint(s: seq<Booking>, i: nat, today: Day)
    requires DistinctIds(s) && i < |s| && WellFormed(s[i]) && ConfirmedDisjoint(s)
    ensures ConfirmedDisjoint(ConfirmStep(s, i, today).1)
  {
    ConfirmOutcome(s, i, today);
    var t := ConfirmStep(s, i, today).1;
    if ConfirmStep(s, i, today).0.Success? {
      forall j, k | 0 <= j < |t| && 0 <= k < |t| && j != k && t[j].status == Confirmed && t[k].status == Confirmed
        ensures !Conflict(t[j], t[k])
      {
        if j == i {
          assert !Conflict(s[i], s[k]);
        } else if k == i {
          assert !Conflict(s[i], s[j]);
          OverlapSymmetric(s[i].checkIn, s[i].checkOut, s[j].checkIn, s[j].checkOut);
        } else {
          assert t[j] == s[j] && t[k] == s[k];
        }
      }
    }
  }

  /** Confirmation changes no booking's membership of the active set, so it keeps active bookings disjoint. */
  lemma ConfirmPreservesActiveDisjoint(s: seq<Booking>, i: nat, today: Day)
    requires i < |s| && ActiveDisjoint(s)
    ensures ActiveDisjoint(ConfirmStep(s, i, today).1)
  {
    var t := ConfirmStep(s, i, today).1;
    forall j, k | 0 <= j < |t| && 0 <= k < |t| && j != k ensures !Conflict(t[j], t[k]) {
      assert !Conflict(s[j], s[k]);
    }
  }

  // ---------------------------------------------------------------------------
  // The booking collection
  // ---------------------------------------------------------------------------

  /** Ids are unique and below the next id to hand out; every record passed validation. */
  predicate StoreInvariant(s: seq<Booking>, nextId: BookingId) {
    && DistinctIds(s)
    && forall i :: 0 <= i < |s| ==> s[i].id < nextId && WellFormed(s[i])
  }

  /** Appending a well-formed record under the next id keeps the invariant. */
  lemma AppendKeepsInvariant(s: seq<Booking>, nextId: BookingId, b: Booking)
    requires StoreInvariant(s, nextId) && WellFormed(b) && b.id == nextId
    ensures StoreInvariant(s + [b], nextId + 1)
  {
  }

  /** Confirmation changes one status and so keeps the invariant. */
  lemma ConfirmKeepsInvariant(s: seq<Booking>, nextId: BookingId, i: nat, today: Day)
    requires StoreInvariant(s, nextId) && i < |s|
    ensures StoreInvariant(ConfirmStep(s, i, today).1, nextId)
  {
    var t := ConfirmStep(s, i, today).1;
    assert forall j :: 0 <= j < |s| ==> t[j].id == s[j].id;
  }

  /**
    Saving a new booking consults neither the collection nor the status: a
    request that sets `status` to "confirmed" is accepted even when a
    confirmed booking of the same room overlaps its stay, and the collection
    then holds two overlapping confirmed bookings. So `ConfirmedDisjoint` is
    kept by confirmation but is not an invariant of the collection.
  */
  lemma CreateMayBreakConfirmedDisjoint(s: seq<Booking>, d: Draft, today: Day, id: BookingId, i: nat)
    requires Acceptable(d, today) && d.status == Some("confirmed")
    requires i < |s| && s[i].status == Confirmed && s[i].roomId == d.roomId
    requires Overlaps(s[i].checkIn, s[i].checkOut, d.checkIn.value, d.checkOut.value)
    ensures FromDraft(d, id).status == Confirmed
    ensures !ConfirmedDisjoint(s + [FromDraft(d, id)])
  {
    var t := s + [FromDraft(d, id)];
    assert t[i] == s[i] && t[|s|] == FromDraft(d, id);
    assert Conflict(t[i], t[|s|]);
  }

  /** The stored bookings, in insertion order, and the next identifier the store hands out. */
  class BookingStore {
    var bookings: seq<Booking>
    var nextId: BookingId

    ghost predicate Valid()
      reads this
    {
      StoreInvariant(bookings, nextId)
    }

    constructor ()
      ensures Valid() && bookings == [] && nextId == 0
    {
      bookings := [];
      nextId := 0;
    }

    /**
      Saving a new booking: schema validation first; a request that fails
      leaves the collection as it was; otherwise the record, with trimmed
      text fields and the default status, is appended under a fresh id.
      The collection is not consulted for availability.
    */
    method Create(d: Draft, today: Day) returns (r: Result<Booking, seq<ValidationError>>)
      requires Valid()
      modifies this
      ensures Valid()
      ensures r.Failure? <==> !Acceptable(d, today)
      ensures r.Failure? ==>
        r.error == Errors(d, today) && bookings == old(bookings) && nextId == old(nextId)
      ensures r.Success? ==>
        && r.value == FromDraft(d, old(nextId))
        && bookings == old(bookings) + [r.value]
        && nextId == old(nextId) + 1
    {
      var errs := Errors(d, today);
      NoErrorsIffAcceptable(d, today);
      if errs != [] {
        return Failure(errs);
      }
      var b := FromDraft(d, nextId);
      AcceptedDraftIsWellFormed(d, today, nextId);
      AppendKeepsInvariant(bookings, nextId, b);
      bookings := bookings + [b];
      nextId := nextId + 1;
      r := Success(b);
    }

    /**
      Confirming the booking stored at position `i` on day `today`: only a
      pending booking may be confirmed, only when no other active booking of
      its room overlaps its stay, and only when the save that records the new
      status accepts the document, which needs its check-in day not to have
      passed. `document` is the caller's loaded copy afterwards: the status is
      set to confirmed before the save, and a save that fails does not undo it.
    */
    method Confirm(i: nat, today: Day) returns (r: Result<Booking, ConfirmError>, document: Booking)
      requires Valid() && i < |bookings|
      modifies this
      ensures Valid() && nextId == old(nextId)
      ensures (r, bookings) == ConfirmStep(old(bookings), i, today)
      ensures r == Failure(NotPending) <==> old(bookings[i].status) != Pending
      ensures r == Failure(CheckInPassed) ==> old(bookings[i].checkIn) < today
      ensures r.Failure? ==> bookings == old(bookings)
      ensures r.Success? ==>
        && old(bookings[i].status) == Pending
        && old(bookings[i].checkIn) >= today
        && bookings == old(bookings)[i := old(bookings[i]).(status := Confirmed)]
        && forall j :: 0 <= j < |bookings| && j != i ==> !Conflict(bookings[i], bookings[j])
      ensures old(ConfirmedDisjoint(bookings)) ==> ConfirmedDisjoint(bookings)
      ensures r == Failure(NotPending) || r == Failure(NoLongerAvailable) ==> document == old(bookings[i])
      ensures r == Failure(CheckInPassed) || r.Success? ==> document == old(bookings[i]).(status := Confirmed)
      ensures r == Failure(CheckInPassed) ==> document.status != bookings[i].status
    {
      var b := bookings[i];
      document := b;
      if b.status != Pending {
        return Failure(NotPending), document;
      }
      var available := IsRoomAvailable(bookings, RecheckQuery(b));
      if !available {
        return Failure(NoLongerAvailable), document;
      }
      document := b.(status := Confirmed);
      if b.checkIn < today {
        return Failure(CheckInPassed), document;
      }
      ConfirmOutcome(bookings, i, today);
      ConfirmKeepsInvariant(bookings, nextId, i, today);
      if ConfirmedDisjoint(bookings) {
        ConfirmPreservesConfirmedDisjoint(bookings, i, today);
      }
      bookings := bookings[i := document];
      r := Success(document);
    }
  }

  // ---------------------------------------------------------------------------
  // JSON view
  // ---------------------------------------------------------------------------

  /** The keys of a booking's plain object. */
  datatype Path =
    | IdPath | RoomIdPath | CustomerNamePath | CustomerAgePath | CustomerAddressPath
    | MobileNoPath | AadharNoPath | CheckInPath | CheckOutPath | StatusPath | VersionPath
  {
    /** The key as it appears in the document. */
    function Key(): string {
      match this
      case IdPath => "_id"
      case RoomIdPath => "room_id"
      case CustomerNamePath => "customer_name"
      case CustomerAgePath => "customer_age"
      case CustomerAddressPath => "customer_address"
      case MobileNoPath => "customer_mobileNo"
      case AadharNoPath => "customer_aadharno"
      case CheckInPath => "check_in_date"
      case CheckOutPath => "check_out_date"
      case StatusPath => "status"
      case VersionPath => "__v"
    }
  }

  /** Distinct paths are distinct keys, so a map over paths is a plain object with those keys. */
  lemma KeysDistinct(p: Path, q: Path)
    ensures p.Key() == q.Key() <==> p == q
  {
  }

  type BookingObject = map<Path, Value>

  /** The plain object of a stored booking. */
  function ToObject(b: Booking): BookingObject {
    map[
      IdPath := Ref(b.id),
      RoomIdPath := Str(b.roomId),
      CustomerNamePath := Str(b.customerName),
      CustomerAgePath := Num(b.customerAge),
      CustomerAddressPath := Str(b.customerAddress),
      MobileNoPath := Str(b.mobileNo),
      AadharNoPath := Str(b.aadharNo),
      CheckInPath := Date(b.checkIn),
      CheckOutPath := Date(b.checkOut),
      StatusPath := Str(b.status.Name()),
      VersionPath := Num(0)]
  }

  /** Writes a stored date as its day text; any other value is kept. */
  function DateAsDay(v: Value): Value {
    if v.Date? then DayText(v.day) else v
  }

  /**
    The schema's `toJSON` transform: both dates, when present, become their
    day text; the version key is removed; every other key keeps its value.
  */
  function ToJson(ret: BookingObject): (r: BookingObject)
    ensures r.Keys == ret.Keys - {VersionPath}
    ensures forall p :: p in r && p != CheckInPath && p != CheckOutPath ==> r[p] == ret[p]
    ensures CheckInPath in r ==> r[CheckInPath] == DateAsDay(ret[CheckInPath])
    ensures CheckOutPath in r ==> r[CheckOutPath] == DateAsDay(ret[CheckOutPath])
  {
    var a := if CheckInPath in ret then ret[CheckInPath := DateAsDay(ret[CheckInPath])] else ret;
    var b := if CheckOutPath in a then a[CheckOutPath := DateAsDay(a[CheckOutPath])] else a;
    b - {VersionPath}
  }

  /** Reads a booking back from its JSON form. */
  function FromJson(o: BookingObject): Option<Booking> {
    if && IdPath in o && o[IdPath].Ref?
       && RoomIdPath in o && o[RoomIdPath].Str?
       && CustomerNamePath in o && o[CustomerNamePath].Str?
       && CustomerAgePath in o && o[CustomerAgePath].Num?
       && CustomerAddressPath in o && o[CustomerAddressPath].Str?
       && MobileNoPath in o && o[MobileNoPath].Str?
       && AadharNoPath in o && o[AadharNoPath].Str?
       && CheckInPath in o && o[CheckInPath].DayText?
       && CheckOutPath in o && o[CheckOutPath].DayText?
       && StatusPath in o && o[StatusPath].Str? && ParseStatus(o[StatusPath].text).Some?
    then
      Some(Booking(o[IdPath].id, o[RoomIdPath].text, o[CustomerNamePath].text, o[CustomerAgePath].number,
                   o[CustomerAddressPath].text, o[MobileNoPath].text, o[AadharNoPath].text,
                   o[CheckInPath].day, o[CheckOutPath].day, ParseStatus(o[StatusPath].text).value))
    else None
  }

  /** The JSON of a stored booking, key by key. */
  function BookingJson(b: Booking): BookingObject {
    map[
      IdPath := Ref(b.id),
      RoomIdPath := Str(b.roomId),
      CustomerNamePath := Str(b.customerName),
      CustomerAgePath := Num(b.customerAge),
      CustomerAddressPath := Str(b.customerAddress),
      MobileNoPath := Str(b.mobileNo),
      AadharNoPath := Str(b.aadharNo),
      CheckInPath := DayText(b.checkIn),
      CheckOutPath := DayText(b.checkOut),
      StatusPath := Str(b.status.Name())]
  }

  /** The transform emits the two days as day text and drops only the version key. */
  lemma ToJsonOfStored(b: Booking)
    ensures ToJson(ToObject(b)) == BookingJson(b)
  {
    var j, e := ToJson(ToObject(b)), BookingJson(b);
    assert j.Keys == e.Keys;
    forall p | p in j ensures j[p] == e[p] {
      if p == CheckInPath || p == CheckOutPath {
      } else {
        assert j[p] == ToObject(b)[p];
      }
    }
  }

  /**
    The JSON of a booking emits the check-in and check-out days, drops the
    version key, and loses nothing else: the record can be read back from it.
  */
  lemma JsonRoundTrip(b: Booking)
    ensures VersionPath !in ToJson(ToObject(b))
    ensures ToJson(ToObject(b))[CheckInPath] == DayText(b.checkIn)
    ensures ToJson(ToObject(b))[CheckOutPath] == DayText(b.checkOut)
    ensures FromJson(ToJson(ToObject(b))) == Some(b)
  {
    ToJsonOfStored(b);
    ReadBookingJson(b);
  }

  /** The reader recovers a booking from its key-by-key JSON. */
  lemma ReadBookingJson(b: Booking)
    ensures FromJson(BookingJson(b)) == Some(b)
  {
    ParseStatusName(b.status);
  }
}
