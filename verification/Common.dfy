/** Constants and types that several parts of the kernel share. */
module Common {
  datatype Option<T> = None | Some(value: T)

  type Byte = b: nat | b < 256

  const WORD := 0x1_0000_0000_0000_0000 // 64-bit arithmetic wraps here
  const PAGE_LEN := 4096

  // Error numbers, and FSCACHE_REQUEST_NODE_ONE_LEVEL_AWAY.
  const ENOENT := 2
  const ENOMEM := 12
  const EACCES := 13
  const EEXIST := 17
  const ENOTDIR := 20
  const EINVAL := 22
  const ENAMETOOLONG := 36
  const ONE_LEVEL_AWAY := 1

  const DT_DIR := 4 // the type of a directory
}
