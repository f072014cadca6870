/** Types and constants the other modules share. */
module Basics {

  type Byte = x: int | 0 <= x < 256

  datatype Option<+T> = None | Some(value: T)

  /** The line buffer size of unp.h. */
  const MAXLINE: nat := 4096
}
