/** Status codes (messages are not modelled), results and optional values. */
module Core {

  datatype Status =
    | Ok
    | InvalidArgument
    | NotFound
    | AlreadyExists
    | IOError
    | Corruption
    | Internal

  datatype Result<+T> = Success(value: T) | Failure(status: Status)

  datatype Option<+T> = None | Some(value: T)
}
