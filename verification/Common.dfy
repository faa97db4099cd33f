/** Small datatypes shared by the modules of this project. */
module Common {

  datatype Option<+T> = None | Some(value: T)

  datatype Result<+T, +E> = Ok(value: T) | Err(error: E)

  type byte = b: int | 0 <= b < 256

  type Bytes = seq<byte>

  type i64 = n: int | -0x8000_0000_0000_0000 <= n < 0x8000_0000_0000_0000
}
