/** The error codes of pmeunier-project/fs.c, negated as its functions return them. */
module Errno {

  const ENOENT := -2
  const EEXIST := -17
  const ENOTDIR := -20
  const EISDIR := -21
  const EINVAL := -22
  const ENOSPC := -28
}
