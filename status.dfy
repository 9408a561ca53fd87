/** Error values of the CPU PjRt client: the `Status` / `StatusOr<T>` results of the
    source, restricted to the error kinds this layer produces. */
module PjrtStatus {

  /** The reason an operation failed. */
  datatype Error =
    | NotFound(deviceId: int)        // a device id that no (addressable) device has
    | Unimplemented(message: string) // a capability this client deliberately lacks

  /** `Status`: success without a value, or an error. */
  datatype Status = OkStatus | ErrStatus(error: Error)

  /** `StatusOr<T>`: a value or an error. */
  datatype StatusOr<+T> = Ok(value: T) | Err(error: Error)

  datatype Option<+T> = None | Some(value: T)
}
