/** The checks POST /rides runs on a request body before anything is stored. */
module Validation {
  import opened Json
  import opened Responses

  /** The seven keys of the request body, as decoded. */
  datatype Body = Body(
    startLat: Value, startLong: Value, endLat: Value, endLong: Value,
    riderName: Value, driverName: Value, driverVehicle: Value)

  /** `Number(...)` of the four coordinate keys of a body. */
  datatype Coordinates = Coordinates(startLat: Num, startLong: Num, endLat: Num, endLong: Num)

  /** What the checks look at: the converted coordinates and the three
      name fields as seen by `typeof`. */
  datatype Payload = Payload(
    startLat: Num, startLong: Num, endLat: Num, endLong: Num,
    riderName: Text, driverName: Text, driverVehicle: Text)

  datatype Verdict = Accepted | Rejected(failure: Failure)

  function PayloadOf(b: Body, c: Coordinates): Payload {
    Payload(c.startLat, c.startLong, c.endLat, c.endLong,
            TextOf(b.riderName), TextOf(b.driverName), TextOf(b.driverVehicle))
  }

  /** `c` holds what `Number(...)` gives for the coordinates of `b`, where
      that is fixed without parsing text. */
  predicate Converts(b: Body, c: Coordinates) {
    NumberAgrees(b.startLat, c.startLat) && NumberAgrees(b.startLong, c.startLong) &&
    NumberAgrees(b.endLat, c.endLat) && NumberAgrees(b.endLong, c.endLong)
  }

  /** A coordinate passes a range check when it lies in the closed interval
      [-bound, bound], or when it is NaN, which no comparison rejects. */
  predicate WithinDegrees(x: Num, bound: real) {
    x.NaN? || -bound <= x.r <= bound
  }

  predicate StartAccepted(p: Payload) {
    WithinDegrees(p.startLat, 90.0) && WithinDegrees(p.startLong, 180.0)
  }

  predicate EndAccepted(p: Payload) {
    WithinDegrees(p.endLat, 90.0) && WithinDegrees(p.endLong, 180.0)
  }

  predicate NonEmptyString(t: Text) {
    t.Str? && t.s != []
  }

  /** Every check passes. */
  predicate Acceptable(p: Payload) {
    StartAccepted(p) && EndAccepted(p) &&
    NonEmptyString(p.riderName) && NonEmptyString(p.driverName) && NonEmptyString(p.driverVehicle)
  }

  /** The five checks of POST /rides, in their order; the first that fails
      decides the message. */
  function Validate(p: Payload): (v: Verdict)
    ensures v.Accepted? <==> Acceptable(p)
    ensures v.Rejected? ==> v.failure.code == ValidationError
    ensures !StartAccepted(p) ==>
      v == Rejected(Failure(ValidationError, StartCoordinatesMessage))
    ensures StartAccepted(p) && !EndAccepted(p) ==>
      v == Rejected(Failure(ValidationError, EndCoordinatesMessage))
    ensures StartAccepted(p) && EndAccepted(p) && !NonEmptyString(p.riderName) ==>
      v == Rejected(Failure(ValidationError, RiderNameMessage))
    ensures StartAccepted(p) && EndAccepted(p) && NonEmptyString(p.riderName) &&
            !NonEmptyString(p.driverName) ==>
      v == Rejected(Failure(ValidationError, DriverNameMessage))
    ensures StartAccepted(p) && EndAccepted(p) && NonEmptyString(p.riderName) &&
            NonEmptyString(p.driverName) && !NonEmptyString(p.driverVehicle) ==>
      v == Rejected(Failure(ValidationError, DriverVehicleMessage))
  {
    if Less(p.startLat, -90.0) || Greater(p.startLat, 90.0) ||
       Less(p.startLong, -180.0) || Greater(p.startLong, 180.0) then
      Rejected(Failure(ValidationError, StartCoordinatesMessage))
    else if Less(p.endLat, -90.0) || Greater(p.endLat, 90.0) ||
            Less(p.endLong, -180.0) || Greater(p.endLong, 180.0) then
      Rejected(Failure(ValidationError, EndCoordinatesMessage))
    else if !p.riderName.Str? || |p.riderName.s| < 1 then
      Rejected(Failure(ValidationError, RiderNameMessage))
    else if !p.driverName.Str? || |p.driverName.s| < 1 then
      Rejected(Failure(ValidationError, DriverNameMessage))
    else if !p.driverVehicle.Str? || |p.driverVehicle.s| < 1 then
      Rejected(Failure(ValidationError, DriverVehicleMessage))
    else
      Accepted
  }

  /** The five messages are distinct, so a rejection names the one check
      that failed. */
  lemma MessageIdentifiesCheck(p: Payload)
    requires Validate(p).Rejected?
    ensures Validate(p).failure.message == StartCoordinatesMessage <==> !StartAccepted(p)
    ensures Validate(p).failure.message == EndCoordinatesMessage <==>
      StartAccepted(p) && !EndAccepted(p)
    ensures Validate(p).failure.message == RiderNameMessage <==>
      StartAccepted(p) && EndAccepted(p) && !NonEmptyString(p.riderName)
    ensures Validate(p).failure.message == DriverNameMessage <==>
      StartAccepted(p) && EndAccepted(p) && NonEmptyString(p.riderName) &&
      !NonEmptyString(p.driverName)
    ensures Validate(p).failure.message == DriverVehicleMessage <==>
      StartAccepted(p) && EndAccepted(p) && NonEmptyString(p.riderName) &&
      NonEmptyString(p.driverName) && !NonEmptyString(p.driverVehicle)
  {
  }

  /** Once a check fails, nothing the later checks look at can change the
      answer: two payloads that agree on the fields up to and including the
      failing check get the same verdict. */
  lemma FirstFailureDecides(p: Payload, q: Payload)
    requires p.startLat == q.startLat && p.startLong == q.startLong
    requires !StartAccepted(p) ||
             (p.endLat == q.endLat && p.endLong == q.endLong &&
              (!EndAccepted(p) ||
               (p.riderName == q.riderName &&
                (!NonEmptyString(p.riderName) ||
                 (p.driverName == q.driverName &&
                  (!NonEmptyString(p.driverName) || p.driverVehicle == q.driverVehicle))))))
    ensures Validate(p) == Validate(q)
  {
  }

  /** The range checks are inclusive: coordinates sitting exactly on the
      bounds are accepted, and anything beyond a bound is rejected by the
      check that owns it. */
  lemma BoundsInclusive(p: Payload, e: real)
    requires e > 0.0
    ensures p.startLat in {Val(90.0), Val(-90.0)} && p.startLong in {Val(180.0), Val(-180.0)} &&
            p.endLat in {Val(90.0), Val(-90.0)} && p.endLong in {Val(180.0), Val(-180.0)} &&
            NonEmptyString(p.riderName) && NonEmptyString(p.driverName) &&
            NonEmptyString(p.driverVehicle) ==>
      Validate(p) == Accepted
    ensures p.startLat == Val(90.0 + e) || p.startLat == Val(-90.0 - e) ||
            p.startLong == Val(180.0 + e) || p.startLong == Val(-180.0 - e) ==>
      Validate(p) == Rejected(Failure(ValidationError, StartCoordinatesMessage))
    ensures StartAccepted(p) &&
            (p.endLat == Val(90.0 + e) || p.endLat == Val(-90.0 - e) ||
             p.endLong == Val(180.0 + e) || p.endLong == Val(-180.0 - e)) ==>
      Validate(p) == Rejected(Failure(ValidationError, EndCoordinatesMessage))
  {
  }

  /** A NaN coordinate is never rejected by the range checks: with all four
      coordinates NaN, only the name checks can fail. */
  lemma NaNPassesRangeChecks(p: Payload)
    requires p.startLat == NaN && p.startLong == NaN && p.endLat == NaN && p.endLong == NaN
    ensures Validate(p).Accepted? <==>
      NonEmptyString(p.riderName) && NonEmptyString(p.driverName) && NonEmptyString(p.driverVehicle)
  {
  }

  /** A body with no coordinate keys at all, or with `null` for them, passes
      the two range checks: `Number(undefined)` is NaN and `Number(null)` is 0. */
  lemma AbsentCoordinatesAccepted(b: Body, c: Coordinates)
    requires Converts(b, c)
    requires b.startLat in {Missing, JNull} && b.startLong in {Missing, JNull}
    requires b.endLat in {Missing, JNull} && b.endLong in {Missing, JNull}
    ensures StartAccepted(PayloadOf(b, c)) && EndAccepted(PayloadOf(b, c))
  {
  }

  /** A coordinate key sent as a JSON number outside its range is rejected:
      a start key with the start-coordinates message whatever the other keys
      hold, an end key with the end-coordinates message once the start
      check passes. */
  lemma NumericCoordinateOutOfRange(b: Body, c: Coordinates)
    requires Converts(b, c)
    ensures (b.startLat.JNumber? && (b.startLat.n < -90.0 || b.startLat.n > 90.0)) ||
            (b.startLong.JNumber? && (b.startLong.n < -180.0 || b.startLong.n > 180.0)) ==>
      Validate(PayloadOf(b, c)) == Rejected(Failure(ValidationError, StartCoordinatesMessage))
    ensures StartAccepted(PayloadOf(b, c)) &&
            ((b.endLat.JNumber? && (b.endLat.n < -90.0 || b.endLat.n > 90.0)) ||
             (b.endLong.JNumber? && (b.endLong.n < -180.0 || b.endLong.n > 180.0))) ==>
      Validate(PayloadOf(b, c)) == Rejected(Failure(ValidationError, EndCoordinatesMessage))
  {
  }

  /** Once the coordinates pass, each name key of the body is rejected, with
      its own message, unless it is a JSON string of length at least 1: a
      number, `null`, a missing key or `""` in that place is rejected. */
  lemma NameMustBeNonEmptyString(b: Body, c: Coordinates)
    requires StartAccepted(PayloadOf(b, c)) && EndAccepted(PayloadOf(b, c))
    ensures Validate(PayloadOf(b, c)) == Rejected(Failure(ValidationError, RiderNameMessage)) <==>
      !(b.riderName.JString? && |b.riderName.s| >= 1)
    ensures b.riderName.JString? && |b.riderName.s| >= 1 ==>
      (Validate(PayloadOf(b, c)) == Rejected(Failure(ValidationError, DriverNameMessage)) <==>
       !(b.driverName.JString? && |b.driverName.s| >= 1))
    ensures b.riderName.JString? && |b.riderName.s| >= 1 &&
            b.driverName.JString? && |b.driverName.s| >= 1 ==>
      (Validate(PayloadOf(b, c)) == Rejected(Failure(ValidationError, DriverVehicleMessage)) <==>
       !(b.driverVehicle.JString? && |b.driverVehicle.s| >= 1))
  {
  }
}
