/** Shared vocabulary of the cache: bytes, optional values, errors and the
    `io.Seek*` origins the cursor understands. */
module Io {

  newtype byte = b: int | 0 <= b < 256

  datatype Option<+T> = None | Some(value: T)

  /** The operating-system call that failed. */
  datatype Op = OpOpen | OpStat | OpRead | OpReaddir

  /** `io.EOF`, or an `*fs.PathError` naming the failed call and the path. */
  datatype Error = EOF | PathError(op: Op, path: string)

  datatype Result<+T> = Ok(value: T) | Err(error: Error)

  /** The error half of a Go `(value, error)` pair. */
  function ErrorOf<T>(r: Result<T>): Option<Error>
  {
    if r.Err? then Some(r.error) else None
  }

  /** `io.SeekStart`, `io.SeekCurrent`, `io.SeekEnd`. */
  const SeekStart: int := 0
  const SeekCurrent: int := 1
  const SeekEnd: int := 2

  function Min(a: int, b: int): int
  {
    if a <= b then a else b
  }
}
