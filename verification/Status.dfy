/** The kernel's status codes; an error is reported as the negated code. */
module Status {
  const ALL_OK := 0
  const EIO := 1
  const EINVARG := 2
  const ENOMEM := 3
}
