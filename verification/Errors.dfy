/** Error codes (error.h); functions return them negated. */
module Errors {
  const EIO: int := 1
  const EINVARG: int := 2
  const ENOMEM: int := 3
}
