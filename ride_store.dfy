/** The Rides table and the three handlers that use it: POST /rides,
    GET /rides and GET /rides/:id. */
module RideStore {
  import opened Json
  import opened Responses
  import opened Validation

  /** One row of the Rides table. The seven user fields hold the body
      values as bound to the INSERT, not their `Number(...)` conversions. */
  datatype Ride = Ride(
    rideID: nat,
    startLat: Value, startLong: Value, endLat: Value, endLong: Value,
    riderName: Value, driverName: Value, driverVehicle: Value)

  /** What a handler sends: the selected rows, or an error object. */
  datatype Response = Rows(rows: seq<Ride>) | Error(failure: Failure)

  /** How the storage engine answered one statement; a fault carries the
      engine's own text. */
  datatype Reply = Done | Fault(engineMessage: string)

  const ServerFailure: Response := Error(Failure(ServerError, UnknownErrorMessage))
  const NotFound: Response := Error(Failure(RidesNotFoundError, NotFoundMessage))

  /** What the driver stores for a bound value: a missing key is bound as
      `undefined`, which is stored, and read back, as NULL. */
  function Stored(v: Value): (r: Value)
    ensures r != Missing
    ensures v != Missing ==> r == v
    ensures v == Missing ==> r == JNull
  {
    if v == Missing then JNull else v
  }

  /** The row inserted for body `b` under identifier `id`: every key the
      body has is stored as sent, and no field is left undefined. */
  function RowOf(id: nat, b: Body): (r: Ride)
    ensures r.rideID == id
    ensures Missing !in {r.startLat, r.startLong, r.endLat, r.endLong,
                         r.riderName, r.driverName, r.driverVehicle}
    ensures b.startLat != Missing ==> r.startLat == b.startLat
    ensures b.startLong != Missing ==> r.startLong == b.startLong
    ensures b.endLat != Missing ==> r.endLat == b.endLat
    ensures b.endLong != Missing ==> r.endLong == b.endLong
    ensures b.riderName != Missing ==> r.riderName == b.riderName
    ensures b.driverName != Missing ==> r.driverName == b.driverName
    ensures b.driverVehicle != Missing ==> r.driverVehicle == b.driverVehicle
  {
    Ride(id, Stored(b.startLat), Stored(b.startLong), Stored(b.endLat), Stored(b.endLong),
         Stored(b.riderName), Stored(b.driverName), Stored(b.driverVehicle))
  }

  /** `SELECT * FROM Rides WHERE rideID = id`: the rows with that
      identifier, in table order. */
  function Select(rows: seq<Ride>, id: int): (r: seq<Ride>)
    ensures |r| <= |rows|
    ensures forall x :: x in r <==> x in rows && x.rideID == id
  {
    if rows == [] then []
    else (if rows[0].rideID == id then [rows[0]] else []) + Select(rows[1..], id)
  }

  /** The lookup keeps table order: looking up in two consecutive parts of a
      table gives the two parts' results one after the other. */
  lemma {:induction false} SelectConcat(a: seq<Ride>, b: seq<Ride>, id: int)
    ensures Select(a + b, id) == Select(a, id) + Select(b, id)
  {
    if a == [] {
      assert a + b == b;
    } else {
      assert (a + b)[1..] == a[1..] + b;
      SelectConcat(a[1..], b, id);
    }
  }

  /** Identifiers grow strictly along the table, as an autoincrement key does. */
  ghost predicate IdsAscending(rows: seq<Ride>) {
    forall i, j :: 0 <= i < j < |rows| ==> rows[i].rideID < rows[j].rideID
  }

  /** The table's invariant: identifiers start at 1, ascend, and all lie
      below the next identifier to hand out. */
  ghost predicate WellFormed(rows: seq<Ride>, nextId: nat) {
    1 <= nextId && IdsAscending(rows) &&
    forall i :: 0 <= i < |rows| ==> 1 <= rows[i].rideID < nextId
  }

  /** With ascending identifiers, looking up the identifier of a row finds
      exactly that row. */
  lemma {:induction false} SelectFindsOne(rows: seq<Ride>, i: nat)
    requires IdsAscending(rows) && i < |rows|
    ensures Select(rows, rows[i].rideID) == [rows[i]]
  {
    var id := rows[i].rideID;
    var rest := rows[1..];
    assert IdsAscending(rest) by {
      forall a, b | 0 <= a < b < |rest| ensures rest[a].rideID < rest[b].rideID {
        assert rest[a] == rows[a + 1] && rest[b] == rows[b + 1];
      }
    }
    if i == 0 {
      SelectEmpty(rest, id);
    } else {
      assert rows[i] == rest[i - 1];
      SelectFindsOne(rest, i - 1);
      assert rows[0].rideID < id;
    }
  }

  /** A lookup finds nothing exactly when no row carries the identifier. */
  lemma {:induction false} SelectEmpty(rows: seq<Ride>, id: int)
    ensures Select(rows, id) == [] <==> forall i :: 0 <= i < |rows| ==> rows[i].rideID != id
  {
    var r := Select(rows, id);
    if r != [] {
      assert r[0] in r;
    }
    if exists i :: 0 <= i < |rows| && rows[i].rideID == id {
      var i :| 0 <= i < |rows| && rows[i].rideID == id;
      assert rows[i] in r;
    }
  }

  /** Appending a row under a fresh identifier keeps the table well formed,
      and the lookup of that identifier then returns exactly the new row. */
  lemma InsertThenSelect(rows: seq<Ride>, nextId: nat, b: Body)
    requires WellFormed(rows, nextId)
    ensures Select(rows, nextId) == []
    ensures WellFormed(rows + [RowOf(nextId, b)], nextId + 1)
    ensures Select(rows + [RowOf(nextId, b)], nextId) == [RowOf(nextId, b)]
  {
    SelectEmpty(rows, nextId);
    var grown := rows + [RowOf(nextId, b)];
    assert grown[|rows|] == RowOf(nextId, b);
    SelectFindsOne(grown, |rows|);
  }

  class Rides {
    var rows: seq<Ride>
    var nextId: nat

    ghost predicate Valid()
      reads this
    {
      WellFormed(rows, nextId)
    }

    /** An empty table whose first identifier is 1. */
    constructor ()
      ensures Valid() && rows == [] && nextId == 1
    {
      rows := [];
      nextId := 1;
    }

    /** POST /rides. `coordinates` is `Number(...)` of the body's four
        coordinates; `insert` and `readBack` are the engine's answers to
        the INSERT and to the SELECT by the new identifier. */
    method Create(body: Body, coordinates: Coordinates, insert: Reply, readBack: Reply)
      returns (resp: Response)
      requires Valid()
      requires Converts(body, coordinates)
      modifies this
      ensures Valid()
      ensures Validate(PayloadOf(body, coordinates)).Rejected? ==>
        resp == Error(Validate(PayloadOf(body, coordinates)).failure) &&
        rows == old(rows) && nextId == old(nextId)
      ensures Validate(PayloadOf(body, coordinates)).Accepted? && insert.Fault? ==>
        resp == ServerFailure && rows == old(rows) && nextId == old(nextId)
      ensures Validate(PayloadOf(body, coordinates)).Accepted? && insert.Done? ==>
        Select(old(rows), old(nextId)) == [] &&
        rows == old(rows) + [RowOf(old(nextId), body)] && nextId == old(nextId) + 1 &&
        resp == if readBack.Fault? then ServerFailure else Rows([RowOf(old(nextId), body)])
    {
      var verdict := Validate(PayloadOf(body, coordinates));
      if verdict.Rejected? {
        return Error(verdict.failure);
      }
      if insert.Fault? {
        return ServerFailure;
      }
      var row := RowOf(nextId, body);
      InsertThenSelect(rows, nextId, body);
      rows := rows + [row];
      nextId := nextId + 1;
      if readBack.Fault? {
        return ServerFailure;
      }
      resp := Rows(Select(rows, row.rideID));
    }

    /** GET /rides. */
    method List(read: Reply) returns (resp: Response)
      ensures read.Fault? ==> resp == ServerFailure
      ensures read.Done? && rows == [] ==> resp == NotFound
      ensures read.Done? && rows != [] ==> resp == Rows(rows)
    {
      if read.Fault? {
        return ServerFailure;
      }
      var all := rows;
      if |all| == 0 {
        return NotFound;
      }
      resp := Rows(all);
    }

    /** GET /rides/:id, the lookup being by identifier equality. */
    method Get(id: int, read: Reply) returns (resp: Response)
      requires Valid()
      ensures read.Fault? ==> resp == ServerFailure
      ensures read.Done? ==>
        (resp == NotFound <==> forall i :: 0 <= i < |rows| ==> rows[i].rideID != id)
      ensures read.Done? ==>
        resp == if Select(rows, id) == [] then NotFound else Rows(Select(rows, id))
      ensures resp.Rows? ==> exists i :: 0 <= i < |rows| && rows[i].rideID == id && resp.rows == [rows[i]]
    {
      if read.Fault? {
        return ServerFailure;
      }
      var found := Select(rows, id);
      SelectEmpty(rows, id);
      if |found| == 0 {
        return NotFound;
      }
      var i :| 0 <= i < |rows| && rows[i].rideID == id;
      SelectFindsOne(rows, i);
      resp := Rows(found);
    }
  }
}
