/** Values shared by the whole model: optional values, results, and bytes. */
module Base {

  /** An optional value; `None` stands for an argument the caller left out
      (`undefined` in the original JavaScript). */
  datatype Option<+T> = None | Some(value: T) {
    function GetOr(default: T): T {
      match this
      case Some(v) => v
      case None => default
    }
  }

  /** Either a value or an error; `Failure` stands for a thrown `Error`. */
  datatype Result<+R, +E> = Success(value: R) | Failure(error: E)

  /** One element of a `Uint8Array`. */
  type Byte = x: int | 0 <= x < 256

  type Bytes = seq<Byte>
}
