/** The error codes the firmware returns (negated) and a result carrying one of them. */
module Errnos {
  datatype Errno = EINVAL | ENOTSUP | ENOMEM | EIO | ENOENT | E2BIG | EMSGSIZE | EAGAIN | ENODEV | ETIMEDOUT | NotFound

  datatype Result<+T> = Ok(value: T) | Err(error: Errno)

  datatype Option<+T> = None | Some(value: T)
}
