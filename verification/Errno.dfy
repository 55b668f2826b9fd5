/** The system's error numbers. Functions that fail return them negated. */
module Errno {
  const EINTR := 4
  const E2BIG := 7
  const ENOMEM := 12
  const EINVAL := 22
  const EPIPE := 32
  const EPROTO := 71
  const EMSGSIZE := 90
  const ENOTSUP := 95
  const ENOBUFS := 105
  const ENOTCONN := 107
}
