/** The error numbers the library returns, negated, as results. */
module Errno {
  const EPERM := 1
  const ENOENT := 2
  const EAGAIN := 11
  const EFAULT := 14
  const ENODEV := 19
  const EINVAL := 22
  const EALREADY := 114
}
