# Ride requests: validation and the Rides table

A Dafny model of the ride-request handling of a small Express service
(`src/app.js`). Clients POST a ride (pickup and drop-off coordinates,
rider, driver, vehicle), list all rides, or fetch one ride by identifier.
The model covers:

- the validation chain of POST `/rides`: five checks run in a fixed order,
  and the first failure decides the `VALIDATION_ERROR` message
  (module `Validation`);
- the Rides table as a class with a `rows` sequence and the next
  identifier to hand out, and the three handlers: create (validate, insert
  one row built from the body values as bound, read back by the new
  identifier), list, and get by identifier (module `RideStore`);
- the JSON values the body can carry, JavaScript's `Number(...)` result as
  `NaN | Val(real)`, comparisons that are false on NaN, and the
  `typeof ... === 'string'` test (module `Json`);
- the error classifications and fixed message texts, and the `Healthy`
  text of `/health` as a constant (module `Responses`).

Storage faults are explicit inputs: each handler takes the engine's
`Reply` (`Done` or `Fault(engineMessage)`) for every statement it issues.
A fault always produces `SERVER_ERROR` / `Unknown error`, and the engine
text never appears in the response. The `Number(...)` results of the four
coordinates are an input too (`Validation.Coordinates`). `Json.NumberAgrees`
pins them down wherever JavaScript fixes them without parsing text.

Some behaviour of the code is easy to overlook, and the model keeps it:

- The validator stops at the first failing check and reports only that
  check's message.
- A coordinate whose `Number(...)` is NaN is never rejected, because every
  comparison with NaN is false. A missing key gives NaN and `null` gives 0,
  so both pass the range checks (`Validation.AbsentCoordinatesAccepted`).
- The INSERT binds the body values themselves (for example the string
  `"45"`), not their `Number(...)` conversions. A missing key is bound as
  `undefined` and stored as NULL (`RideStore.Stored`).
- GET `/rides` has no `limit`/`page` handling and always returns every row.

## Model

| member | source | states |
|---|---|---|
| `Json.NumberAgrees` | src/app.js:61-64 | What `Number(...)` gives without parsing text: a JSON number stays itself, `true` gives 1, `false`, `null`, `""` and `[]` give 0, a missing key gives NaN; other strings, non-empty arrays and objects are left open |
| `Validation.Validate` | src/app.js:60-102 | Accepts exactly when both coordinate pairs lie in the closed ranges [-90, 90] and [-180, 180] (or are NaN) and all three names are non-empty strings; otherwise it rejects with `VALIDATION_ERROR` and the message of the first failing check in the order start coordinates, end coordinates, rider name, driver name, driver vehicle |
| `Validation.MessageIdentifiesCheck` | src/app.js:69-102 | The five rejection messages are distinct, so a rejection's message identifies exactly which check failed first |
| `Validation.FirstFailureDecides` | src/app.js:69-102 | Two payloads that agree on every field up to and including the first failing check get the same verdict, whatever the later fields hold |
| `Validation.BoundsInclusive` | src/app.js:69-81 | A payload whose coordinates sit exactly on ±90 and ±180 and whose names are non-empty strings is accepted; any value beyond a bound is rejected, with the start message for start coordinates and with the end message for end coordinates once the start passes |
| `Validation.NaNPassesRangeChecks` | src/app.js:61-81 | With all four coordinates NaN, the verdict depends on the three name fields only |
| `Validation.AbsentCoordinatesAccepted` | src/app.js:61-81 | A body whose coordinate keys are missing or `null` passes both range checks |
| `Validation.NumericCoordinateOutOfRange` | src/app.js:61-81 | A coordinate key sent as a JSON number outside its range is rejected: a start key with the start-coordinates message whatever the other keys hold, an end key with the end-coordinates message once the start check passes |
| `Validation.NameMustBeNonEmptyString` | src/app.js:83-102 | Once the coordinates pass, the rider name, then the driver name, then the driver vehicle is rejected with its own message exactly when that body key is not a JSON string of length at least 1 |
| `RideStore.Stored` | src/app.js:104-106 | A bound value is stored as sent, except that a missing key (`undefined`) is stored as NULL; nothing is stored as undefined |
| `RideStore.RowOf` | src/app.js:104-106 | The inserted row carries the given identifier, every key the body has as sent, and no undefined field |
| `RideStore.Select` | src/app.js:114 | The lookup by identifier returns exactly the table's rows carrying that identifier, and no more rows than the table has |
| `RideStore.SelectConcat` | src/app.js:114 | The lookup keeps table order: on two consecutive parts of a table it returns the first part's matches followed by the second part's |
| `RideStore.SelectFindsOne` | src/app.js:148 | With ascending identifiers, looking up the identifier of any row returns that row alone |
| `RideStore.SelectEmpty` | src/app.js:156-161 | A lookup returns no rows exactly when no row carries the identifier |
| `RideStore.InsertThenSelect` | src/app.js:104-122 | The next identifier is new to the table; appending the row built from the body keeps the table well formed, and looking the new identifier up returns exactly the new row |
| `RideStore.Rides.Create` | src/app.js:60-125 | Given coordinates that are `Number(...)` of the body's keys: a rejected body returns the validator's error and leaves the table unchanged; an insert fault returns `SERVER_ERROR` and leaves the table unchanged; otherwise exactly one row with a new identifier and the bound body values is appended, and the response is that single row, or `SERVER_ERROR` if the read-back faults (the row stays stored) |
| `RideStore.Rides.List` | src/app.js:127-145 | A read fault gives `SERVER_ERROR`; an empty table gives `RIDES_NOT_FOUND_ERROR`; otherwise every row in table order; the table is not changed |
| `RideStore.Rides.Get` | src/app.js:147-165 | A read fault gives `SERVER_ERROR`; on a successful read the response is `RIDES_NOT_FOUND_ERROR` exactly when no row has the identifier, and otherwise the matching rows, which are exactly the one row with that identifier; the table is not changed |

## Left out

- HTTP routing, JSON body decoding and `res.send`: handlers return a `Response` value. Every response the handlers send has HTTP status 200, so no status is modelled.
- An exception thrown inside `Number(...)`: a coordinate that is a JSON object with a `toString` key, or an array holding such an object at any depth, makes `Number(...)` throw a TypeError, and Express then answers with its own 500 error page instead of `{error_code, message}`. The model has no such outcome: `Json.NumberAgrees` leaves the conversion of objects and non-empty arrays unconstrained, so the model answers normally for them.
- The SQL text and the sqlite driver: the table is a sequence of rows, and a lookup is identifier equality. The path identifier of GET `/rides/:id` is interpolated into the SQL text. A numeric path identifier matches only because `rideID` has INTEGER affinity, which comes from the autoincrement primary key of a schema that is not part of the source shown (so `/rides/05` finds ride 5). The model takes the identifier as an integer, which covers this, so non-numeric identifiers and the injection this permits are not modelled.
- The callback structure of `db.run`/`db.all` and `this.lastID`: `Create` is sequential, and the new identifier is the table's `nextId` counter.
- How `Number(...)` parses strings and non-empty arrays, and IEEE floating point (precision, infinities, negative zero): the converted values are an input, and numbers are reals.
- String length is counted in characters, not UTF-16 code units. This only matters for the length-at-least-1 test, where the two agree.
- RideStore.Rides.Create: the row stored and read back models only one conversion by the sqlite driver, `undefined` to NULL. Other conversions are not modelled: booleans bound as integers, the column affinity of the unseen schema (which may turn `"45"` into a number), and how arrays and objects are bound.
- The `created` timestamp the database assigns, and the table schema, which is not part of the source shown.
- `src/logger/index.js`: it only configures log file transports (I/O, no logic).
- Pagination (`limit`, `page`, `total_page`): not present in the code.
