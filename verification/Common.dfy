/** Types shared by the models: optional values, bytes, and the error codes that
    the kernel's functions return through `struct result`. */
module Common {

  datatype Option<+T> = None | Some(value: T)

  type Byte = b: nat | b < 256

  /** `struct result` and its `struct_result(T, ...)` variants. `Crashed` stands for a failed
      `assert`, a null dereference, a read of memory that is not there, or a signed overflow, after
      which nothing is promised about the kernel. */
  datatype Result<+T> = Ok(value: T) | Err(code: Errno) | Crashed {

    /** A failure, as the result of a caller that passes it on. */
    function Failure<U>(): Result<U>
      requires !Ok?
    {
      match this
      case Err(code) => Err(code)
      case Crashed => Crashed
    }
  }

  datatype Errno = EINVAL | ENOMEM | EEXIST | ENOENT | ENOTDIR | ENAMETOOLONG | EAGAIN | EIO

  function Min(a: int, b: int): int { if a < b then a else b }

  function Max(a: int, b: int): int { if a > b then a else b }
}
