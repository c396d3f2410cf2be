/** The kernel's error numbers, as the drivers return them. */
module Errno {
  const EIO := -5
  const EFAULT := -14
  const EINVAL := -22
  const ETIMEDOUT := -110
}
