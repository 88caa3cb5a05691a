/** The Linux error numbers the launcher reports. */
module Errno {
  const ENOENT: int := 2
  const EINTR: int := 4
  const E2BIG: int := 7
  const EAGAIN: int := 11
  const ENOMEM: int := 12
  const EEXIST: int := 17
  const ENODEV: int := 19
  const EINVAL: int := 22
  const EFBIG: int := 27
  const ERANGE: int := 34
  const ENODATA: int := 61
  const EPROTO: int := 71
  const EBADMSG: int := 74
  const EMSGSIZE: int := 90
  const EPROTONOSUPPORT: int := 93
  const EOPNOTSUPP: int := 95
  const ETIMEDOUT: int := 110
  const ESTALE: int := 116
  const ECANCELED: int := 125
}
