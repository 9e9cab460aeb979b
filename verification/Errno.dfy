/** The error codes the modelled functions return, negated, as the C sources do. */
module Errno {
  const EIO := 5
  const EAGAIN := 11
  const EBUSY := 16
  const EINVAL := 22
  const ENOTCONN := 107
  /** First code past the libc range: a circular buffer was overrun. */
  const EOVERRUN := 2001
}
