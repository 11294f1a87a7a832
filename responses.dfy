/** The error classifications and the fixed texts the ride service sends. */
module Responses {

  /** Sent as the `error_code` strings `VALIDATION_ERROR`, `SERVER_ERROR`
      and `RIDES_NOT_FOUND_ERROR`. */
  datatype ErrorCode = ValidationError | ServerError | RidesNotFoundError

  /** The `{error_code, message}` object of an error response. */
  datatype Failure = Failure(code: ErrorCode, message: string)

  const StartCoordinatesMessage: string :=
    "Start latitude and longitude must be between -90 - 90 and -180 to 180 degrees respectively"
  const EndCoordinatesMessage: string :=
    "End latitude and longitude must be between -90 - 90 and -180 to 180 degrees respectively"
  const RiderNameMessage: string := "Rider name must be a non empty string"
  const DriverNameMessage: string := "Driver name must be a non empty string"
  const DriverVehicleMessage: string := "Driver vehicle must be a non empty string"
  const UnknownErrorMessage: string := "Unknown error"
  const NotFoundMessage: string := "Could not find any rides"

  /** The body of the `/health` response. */
  const HealthBody: string := "Healthy"
}
